/**
 * request_google_version4.py: the Google result-page parser (one link per
 * `div.g`, `/url?q=` redirects unwrapped), the article fetch loop that keeps
 * one entry per link, and the harvest loop of `main` that tops the link set
 * up page by page.
 */
module GoogleV4 {
  import opened Wrappers
  import opened Text
  import opened Url
  import opened Sanitize
  import opened Blocking
  import opened Links

  /** A result page: for each `div.g` container, the `href` of its first anchor that has one. */
  type ResultPage = Html<Option<string>>

  /** The URL a container offers: its first href, with a `/url?q=` redirect replaced by its `q` value. */
  function Candidate(firstHref: Option<string>): Option<string> {
    match firstHref
    case None => None
    case Some(href) => if "/url?q=" <= href then RedirectTarget(href) else Some(href)
  }

  function Candidates(containers: seq<Option<string>>): (r: seq<Option<string>>)
    ensures |r| == |containers|
    ensures forall i :: 0 <= i < |containers| ==> r[i] == Candidate(containers[i])
  {
    seq(|containers|, i requires 0 <= i < |containers| => Candidate(containers[i]))
  }

  /**
   * A redirect container contributes its target, also when further
   * parameters follow it, and one whose `q` parameter is blank contributes
   * nothing.
   */
  lemma CandidateUnwraps(target: string, more: string)
    requires target != [] && '&' !in target && '#' !in target && '%' !in target && '+' !in target && '#' !in more
    ensures Candidate(Some("/url?q=" + target)) == Some(target)
    ensures Candidate(Some("/url?q=" + target + "&" + more)) == Some(target)
    ensures Candidate(Some("/url?q=")) == None
  {
    RedirectRoundTrip(target, more);
    RedirectBlank(more);
    assert "/url?q=" <= "/url?q=" + target + "&" + more;
  }

  /** The links `parsear_html_resultados_pesquisa` returns for a page, as a set. */
  function ParsedSet(html: ResultPage, numLinks: int): set<string> {
    if html.Blank? then {} else FirstWebLinks(Candidates(html.items), numLinks)
  }

  /** `parsear_html_resultados_pesquisa(html_content, num_links)`. */
  method ParseResults(html: ResultPage, numLinks: int) returns (links: seq<string>)
    ensures html.Blank? ==> links == []
    ensures Distinct(links)
    ensures Elems(links) == ParsedSet(html, numLinks)
    ensures |links| <= if numLinks < 0 then 0 else numLinks
  {
    if html.Blank? {
      return [];
    }
    links := CollectWebLinks(Candidates(html.items), numLinks);
  }

  /** The content recorded for one link, from the GET it issued. */
  function Conteudo(link: string, response: Fetch<string>): string {
    match response
    case Raised => ""
    case Reply(status, text) =>
      if !Is2xx(status) then ""
      else
        var limpo := LimparConteudo(text);
        if IsBlockedContent(limpo) || IsBlockedSite(link) then "" else limpo
  }

  /**
   * Content is blank after a `RequestException`, a non-2xx status, a block
   * phrase or a blocked site; any content that is not blank is the cleaned
   * page text, which holds no block phrase.
   */
  lemma ConteudoRule(link: string, response: Fetch<string>)
    ensures response.Raised? ==> Conteudo(link, response) == ""
    ensures response.Reply? && !Is2xx(response.status) ==> Conteudo(link, response) == ""
    ensures IsBlockedSite(link) ==> Conteudo(link, response) == ""
    ensures response.Reply? && IsBlockedContent(LimparConteudo(response.body)) ==> Conteudo(link, response) == ""
    ensures Conteudo(link, response) != "" ==>
      response.Reply? && Is2xx(response.status) && Conteudo(link, response) == LimparConteudo(response.body)
    ensures IsClean(Conteudo(link, response)) && !IsBlockedContent(Conteudo(link, response))
  {
    EmptyNotBlocked();
  }

  /** The body of the loop of `extrair_conteudo_links` for one link. */
  method FetchContent(link: string, fetch: string -> Fetch<string>) returns (conteudo: string)
    ensures conteudo == Conteudo(link, fetch(link))
  {
    conteudo := "";
    match fetch(link) {
      case Raised =>
        conteudo := "";
      case Reply(status, text) =>
        if Is2xx(status) {
          var limpo := LimparConteudo(text);
          var bloqueio := IsBlockedContent(limpo) || IsBlockedSite(link);
          conteudo := if !bloqueio then limpo else "";
        }
    }
  }

  /** The list `extrair_conteudo_links` builds: one article per link, in order. */
  function Extracted(links: seq<string>, fetch: string -> Fetch<string>): seq<Article>
    decreases |links|
  {
    if links == [] then []
    else
      var last := links[|links| - 1];
      Extracted(links[..|links| - 1], fetch) + [Article(last, Conteudo(last, fetch(last)))]
  }

  /** Each link keeps its place and gets the content of its own request. */
  lemma {:induction false} ExtractedEntries(links: seq<string>, fetch: string -> Fetch<string>)
    ensures |Extracted(links, fetch)| == |links|
    ensures LinksOf(Extracted(links, fetch)) == links
    ensures forall i :: 0 <= i < |links| ==> Extracted(links, fetch)[i].conteudo == Conteudo(links[i], fetch(links[i]))
    decreases |links|
  {
    if links != [] {
      var init := links[..|links| - 1];
      ExtractedEntries(init, fetch);
      assert links == init + [links[|links| - 1]];
    }
  }

  /**
   * `extrair_conteudo_links(links)`; `fetch` stands for the GET issued for
   * each link, its body for the joined text of the page's text-bearing
   * elements.
   */
  method ExtractArticles(links: seq<string>, fetch: string -> Fetch<string>) returns (artigos: seq<Article>)
    ensures artigos == Extracted(links, fetch)
  {
    artigos := [];
    for i := 0 to |links|
      invariant artigos == Extracted(links[..i], fetch)
    {
      var conteudo := FetchContent(links[i], fetch);
      assert links[..i + 1][..i] == links[..i];
      artigos := artigos + [Article(links[i], conteudo)];
    }
    assert links[..|links|] == links;
  }

  /** One results page request: the query and the `start` offset. */
  datatype SearchRequest = SearchRequest(query: string, start: int)

  /**
   * `obter_resultados_pesquisa_google`: the body of a 200 reply, otherwise
   * nothing (a failed request and a non-200 status both give `None`).
   */
  function ResultsHtml(page: Fetch<ResultPage>): (r: ResultPage)
    ensures page.Reply? && page.status == 200 ==> r == page.body
    ensures !(page.Reply? && page.status == 200) ==> r == Blank
  {
    if page.Reply? && page.status == 200 then page.body else Blank
  }

  /** The page `main` receives for its `k`-th request (counting from 0). */
  function Page(query: string, serve: SearchRequest -> Fetch<ResultPage>, k: nat): ResultPage {
    ResultsHtml(serve(SearchRequest(query, 10 * k)))
  }

  /** The link set of `main` after its first `k` page requests. */
  ghost function Gathered(query: string, serve: SearchRequest -> Fetch<ResultPage>, numLinks: int, k: nat): set<string>
    decreases k, 0
  {
    if k == 0 then {} else After(query, serve, numLinks, k - 1)
  }

  /** The link set once page `j` is in: a page that arrived adds its links, one that did not adds nothing. */
  ghost function After(query: string, serve: SearchRequest -> Fetch<ResultPage>, numLinks: int, j: nat): set<string>
    decreases j, 2
  {
    if Page(query, serve, j).Doc? then Gathered(query, serve, numLinks, j) + Added(query, serve, numLinks, j)
    else Gathered(query, serve, numLinks, j)
  }

  /** The links page `j` contributes: it is asked for as many as are still missing. */
  ghost function Added(query: string, serve: SearchRequest -> Fetch<ResultPage>, numLinks: int, j: nat): set<string>
    decreases j, 1
  {
    ParsedSet(Page(query, serve, j), numLinks - |Gathered(query, serve, numLinks, j)|)
  }

  /** The set only grows from page to page. */
  lemma {:induction false} GatheredGrows(query: string, serve: SearchRequest -> Fetch<ResultPage>, numLinks: int, i: nat, j: nat)
    requires i <= j
    ensures Gathered(query, serve, numLinks, i) <= Gathered(query, serve, numLinks, j)
    decreases j
  {
    if i < j {
      GatheredGrows(query, serve, numLinks, i, j - 1);
      assert Gathered(query, serve, numLinks, j) == After(query, serve, numLinks, j - 1);
    }
  }

  /** A page never adds more links than are missing, and only http and https links. */
  lemma AddedLinks(query: string, serve: SearchRequest -> Fetch<ResultPage>, numLinks: int, j: nat)
    ensures var missing := numLinks - |Gathered(query, serve, numLinks, j)|;
      |Added(query, serve, numLinks, j)| <= if missing < 0 then 0 else missing
    ensures forall u :: u in Added(query, serve, numLinks, j) ==> IsWebUrl(u)
  {
    var html := Page(query, serve, j);
    if html.Doc? {
      FirstWebLinksMembers(Candidates(html.items), numLinks - |Gathered(query, serve, numLinks, j)|);
      FirstWebLinksCard(Candidates(html.items), numLinks - |Gathered(query, serve, numLinks, j)|);
    }
  }

  /** The set never outgrows `num_links`. */
  lemma {:induction false} GatheredBound(query: string, serve: SearchRequest -> Fetch<ResultPage>, numLinks: int, k: nat)
    ensures |Gathered(query, serve, numLinks, k)| <= if numLinks < 0 then 0 else numLinks
  {
    if k > 0 {
      var j := k - 1;
      GatheredBound(query, serve, numLinks, j);
      AddedLinks(query, serve, numLinks, j);
      var before := Gathered(query, serve, numLinks, j);
      var added := Added(query, serve, numLinks, j);
      assert |before + added| <= |before| + |added| by {
        assert |before + added| + |before * added| == |before| + |added|;
      }
      assert Gathered(query, serve, numLinks, k) == After(query, serve, numLinks, j);
    }
  }

  /** Only http and https links are gathered. */
  lemma {:induction false} GatheredWeb(query: string, serve: SearchRequest -> Fetch<ResultPage>, numLinks: int, k: nat)
    ensures forall u :: u in Gathered(query, serve, numLinks, k) ==> IsWebUrl(u)
  {
    if k > 0 {
      var j := k - 1;
      GatheredWeb(query, serve, numLinks, j);
      AddedLinks(query, serve, numLinks, j);
      assert Gathered(query, serve, numLinks, k) == After(query, serve, numLinks, j);
    }
  }

  /**
   * One pass of the loop body of `main`: request the page at `start`, and
   * when it arrives add what `parsear_html_resultados_pesquisa` finds,
   * asked for the links still missing.
   */
  method FetchRound(query: string, numLinks: int, serve: SearchRequest -> Fetch<ResultPage>,
                    start: int, ghost k: nat, allLinks: set<string>)
    returns (html: ResultPage, newLinks: set<string>)
    requires start == 10 * k
    requires allLinks == Gathered(query, serve, numLinks, k)
    ensures html == Page(query, serve, k)
    ensures newLinks == Gathered(query, serve, numLinks, k + 1)
    ensures html.Blank? ==> newLinks == allLinks
  {
    html := ResultsHtml(serve(SearchRequest(query, start)));
    if html.Blank? {
      return html, allLinks;
    }
    var found := ParseResults(html, numLinks - |allLinks|);
    newLinks := allLinks + Elems(found);
    assert Elems(found) == Added(query, serve, numLinks, k);
    assert newLinks == After(query, serve, numLinks, k);
  }

  /**
   * The harvest loop of `main`: pages are requested at `start` offsets
   * 0, 10, 20, ... while fewer than `num_links` links are known, and the
   * loop stops right after the first page that does not arrive.  The source
   * can run forever on pages that yield nothing new; `maxPages` bounds the
   * number of pages requested.
   */
  method HarvestSet(query: string, numLinks: int, serve: SearchRequest -> Fetch<ResultPage>, maxPages: nat)
    returns (allLinks: set<string>, pages: nat)
    ensures pages <= maxPages
    ensures forall i :: 0 <= i < pages ==> |Gathered(query, serve, numLinks, i)| < numLinks
    ensures forall i :: 0 <= i < pages - 1 ==> Page(query, serve, i).Doc?
    ensures allLinks == Gathered(query, serve, numLinks, pages)
    ensures |allLinks| >= numLinks || pages == maxPages || (pages > 0 && Page(query, serve, pages - 1).Blank?)
  {
    allLinks := {};
    var start := 0;
    pages := 0;
    while |allLinks| < numLinks && pages < maxPages
      invariant pages <= maxPages
      invariant start == 10 * pages
      invariant forall i :: 0 <= i < pages ==> |Gathered(query, serve, numLinks, i)| < numLinks
      invariant forall i :: 0 <= i < pages ==> Page(query, serve, i).Doc?
      invariant allLinks == Gathered(query, serve, numLinks, pages)
      decreases maxPages - pages
    {
      var htmlResultados, newLinks := FetchRound(query, numLinks, serve, start, pages, allLinks);
      pages := pages + 1;
      allLinks := newLinks;
      if htmlResultados.Blank? {
        break;
      }
      start := start + 10;
    }
  }

  /** A server whose every results page arrives but offers no result container. */
  function NoResults(request: SearchRequest): Fetch<ResultPage> {
    Reply(200, Doc([]))
  }

  /**
   * The loop of `main` as written never ends against such a server: every
   * page arrives, so the `break` is never taken, and the set stays empty,
   * so `len(all_links) < num_links` holds for every positive `num_links`
   * after any number of pages.
   */
  lemma {:induction false} EndlessHarvest(query: string, numLinks: int, k: nat)
    ensures Page(query, NoResults, k).Doc?
    ensures Gathered(query, NoResults, numLinks, k) == {}
    ensures numLinks > 0 ==> |Gathered(query, NoResults, numLinks, k)| < numLinks
  {
    if k > 0 {
      EndlessHarvest(query, numLinks, k - 1);
      assert Candidates([]) == [];
      assert WebLinks([]) == [];
      assert Added(query, NoResults, numLinks, k - 1) == {};
      assert Gathered(query, NoResults, numLinks, k) == After(query, NoResults, numLinks, k - 1);
    }
  }

  lemma ProperSubsetCard(small: set<string>, big: set<string>)
    requires small <= big && small != big
    ensures |small| < |big|
  {
    var u :| u in big && u !in small;
    var grown := small + {u};
    assert |grown| == |small| + 1;
    assert big == grown + (big - grown);
    assert |grown + (big - grown)| + |grown * (big - grown)| == |grown| + |big - grown|;
    assert grown * (big - grown) == {};
  }

  /**
   * The harvest loop with the stop it evidently needs: it also ends after
   * a page that arrives but adds no new link.  Every other page adds at
   * least one link, so at most `num_links + 1` pages are requested and no
   * page bound is needed.
   */
  method HarvestUntilDry(query: string, numLinks: int, serve: SearchRequest -> Fetch<ResultPage>)
    returns (allLinks: set<string>, pages: nat)
    ensures pages <= (if numLinks < 0 then 0 else numLinks) + 1
    ensures forall i :: 0 <= i < pages ==> |Gathered(query, serve, numLinks, i)| < numLinks
    ensures forall i :: 0 <= i < pages - 1 ==> Page(query, serve, i).Doc?
    ensures forall i :: 0 < i < pages ==> Gathered(query, serve, numLinks, i - 1) < Gathered(query, serve, numLinks, i)
    ensures allLinks == Gathered(query, serve, numLinks, pages)
    ensures |allLinks| >= numLinks || (pages > 0 && allLinks == Gathered(query, serve, numLinks, pages - 1))
  {
    allLinks := {};
    var start := 0;
    pages := 0;
    while |allLinks| < numLinks
      invariant start == 10 * pages
      invariant pages <= |allLinks|
      invariant forall i :: 0 <= i < pages ==> |Gathered(query, serve, numLinks, i)| < numLinks
      invariant forall i :: 0 <= i < pages ==> Page(query, serve, i).Doc?
      invariant forall i :: 0 < i <= pages ==> Gathered(query, serve, numLinks, i - 1) < Gathered(query, serve, numLinks, i)
      invariant allLinks == Gathered(query, serve, numLinks, pages)
      decreases numLinks - |allLinks|
    {
      var htmlResultados, newLinks := FetchRound(query, numLinks, serve, start, pages, allLinks);
      GatheredGrows(query, serve, numLinks, pages, pages + 1);
      GatheredBound(query, serve, numLinks, pages + 1);
      pages := pages + 1;
      if htmlResultados.Blank? || newLinks == allLinks {
        allLinks := newLinks;
        break;
      }
      ProperSubsetCard(allLinks, newLinks);
      allLinks := newLinks;
      start := start + 10;
    }
    GatheredBound(query, serve, numLinks, pages);
  }

  /**
   * `main` up to the article fetch: the harvested set, turned into a list
   * (in no particular order) and cut to `num_links`; the cut never drops a
   * link, since the set never outgrows `num_links`.
   */
  method HarvestLinks(query: string, numLinks: int, serve: SearchRequest -> Fetch<ResultPage>, maxPages: nat)
    returns (links: seq<string>, pages: nat)
    ensures pages <= maxPages
    ensures forall i :: 0 <= i < pages ==> |Gathered(query, serve, numLinks, i)| < numLinks
    ensures forall i :: 0 <= i < pages - 1 ==> Page(query, serve, i).Doc?
    ensures Distinct(links)
    ensures Elems(links) == Gathered(query, serve, numLinks, pages)
    ensures forall u :: u in links ==> IsWebUrl(u)
    ensures |links| <= if numLinks < 0 then 0 else numLinks
    ensures |links| < numLinks ==> pages == maxPages || (pages > 0 && Page(query, serve, pages - 1).Blank?)
  {
    var allLinks;
    allLinks, pages := HarvestSet(query, numLinks, serve, maxPages);
    GatheredBound(query, serve, numLinks, pages);
    GatheredWeb(query, serve, numLinks, pages);
    var all := ListOfSet(allLinks);
    links := SliceTo(all, numLinks);
    assert links == all;
  }
}
