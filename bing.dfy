/**
 * request_bing_version1.py: the Bing result-page parser (one link per
 * `li.b_algo`), the page loop of `obter_links_de_varias_paginas` that stops
 * at the first page that fails or yields nothing, and the article fetch
 * loop that drops blocked sites and blocked content.
 */
module BingV1 {
  import opened Wrappers
  import opened Text
  import opened Url
  import opened Sanitize
  import opened Blocking
  import opened Links

  /** A result page: for each `li.b_algo` container, the `href` of its first anchor that has one. */
  type ResultPage = Html<Option<string>>

  /** The links `parsear_html_resultados_pesquisa` returns for a page, as a set. */
  function ParsedSet(html: ResultPage, numLinks: int): set<string> {
    if html.Blank? then {} else FirstWebLinks(html.items, numLinks)
  }

  /** `parsear_html_resultados_pesquisa(html_content, num_links)`. */
  method ParseResults(html: ResultPage, numLinks: int) returns (links: seq<string>)
    ensures html.Blank? ==> links == []
    ensures Distinct(links)
    ensures Elems(links) == ParsedSet(html, numLinks)
    ensures |links| <= if numLinks < 0 then 0 else numLinks
  {
    if html.Blank? {
      return [];
    }
    links := CollectWebLinks(html.items, numLinks);
  }

  /** A parsed page holds only http and https links that its containers offer. */
  lemma ParsedSetMembers(html: ResultPage, numLinks: int)
    ensures forall u :: u in ParsedSet(html, numLinks) ==> IsWebUrl(u) && html.Doc? && Some(u) in html.items
  {
    if html.Doc? {
      FirstWebLinksMembers(html.items, numLinks);
    }
  }

  /** One search request: the query, the `first` offset and the `count` of results asked for. */
  datatype SearchRequest = SearchRequest(query: string, first: int, count: int)

  /** The reply to the request for page `k` (counting from 0), whose offset is `k * 10`. */
  function Page(query: string, count: int, serve: SearchRequest -> Fetch<ResultPage>, k: nat): Fetch<ResultPage> {
    serve(SearchRequest(query, k * 10, count))
  }

  /** The links page `k` yields: those parsed from a 200 reply, none otherwise. */
  function PageLinks(query: string, count: int, serve: SearchRequest -> Fetch<ResultPage>, k: nat): set<string> {
    var response := Page(query, count, serve, k);
    if response.Reply? && response.status == 200 then ParsedSet(response.body, count) else {}
  }

  /** The loop goes on after page `k`: it got a 200 reply that parsed to some links. */
  predicate Continues(query: string, count: int, serve: SearchRequest -> Fetch<ResultPage>, k: nat) {
    var response := Page(query, count, serve, k);
    response.Reply? && response.status == 200 && PageLinks(query, count, serve, k) != {}
  }

  /** `todos_os_links` once the first `k` pages have all been processed. */
  function Gathered(query: string, count: int, serve: SearchRequest -> Fetch<ResultPage>, k: nat): set<string>
    decreases k, 0
  {
    if k == 0 then {} else After(query, count, serve, k - 1)
  }

  /** The set once page `j` has added its links. */
  function After(query: string, count: int, serve: SearchRequest -> Fetch<ResultPage>, j: nat): set<string>
    decreases j, 1
  {
    Gathered(query, count, serve, j) + PageLinks(query, count, serve, j)
  }

  /** The gathered links are exactly those some page among the first `k` yields. */
  lemma {:induction false} GatheredUnion(query: string, count: int, serve: SearchRequest -> Fetch<ResultPage>, k: nat)
    ensures forall u :: u in Gathered(query, count, serve, k) <==>
      exists i :: 0 <= i < k && u in PageLinks(query, count, serve, i)
    decreases k
  {
    if k > 0 {
      GatheredUnion(query, count, serve, k - 1);
      var before := Gathered(query, count, serve, k - 1);
      var added := PageLinks(query, count, serve, k - 1);
      assert Gathered(query, count, serve, k) == After(query, count, serve, k - 1);
    }
  }

  /** A page yields only http and https links. */
  lemma PageLinksWeb(query: string, count: int, serve: SearchRequest -> Fetch<ResultPage>, k: nat)
    ensures forall u :: u in PageLinks(query, count, serve, k) ==> IsWebUrl(u)
  {
    var response := Page(query, count, serve, k);
    if response.Reply? && response.status == 200 {
      ParsedSetMembers(response.body, count);
    }
  }

  /** Every gathered link is an http or https link. */
  lemma {:induction false} GatheredWeb(query: string, count: int, serve: SearchRequest -> Fetch<ResultPage>, k: nat)
    ensures forall u :: u in Gathered(query, count, serve, k) ==> IsWebUrl(u)
    decreases k
  {
    if k > 0 {
      GatheredWeb(query, count, serve, k - 1);
      PageLinksWeb(query, count, serve, k - 1);
      var before := Gathered(query, count, serve, k - 1);
      var added := PageLinks(query, count, serve, k - 1);
      assert Gathered(query, count, serve, k) == After(query, count, serve, k - 1);
    }
  }

  /** Each page adds at most `count` links. */
  lemma {:induction false} GatheredBound(query: string, count: int, serve: SearchRequest -> Fetch<ResultPage>, k: nat)
    ensures |Gathered(query, count, serve, k)| <= k * (if count < 0 then 0 else count)
    decreases k
  {
    if k > 0 {
      var c := if count < 0 then 0 else count;
      GatheredBound(query, count, serve, k - 1);
      var before := Gathered(query, count, serve, k - 1);
      var added := PageLinks(query, count, serve, k - 1);
      var response := Page(query, count, serve, k - 1);
      if response.Reply? && response.status == 200 && response.body.Doc? {
        FirstWebLinksCard(response.body.items, count);
      }
      assert |added| <= c;
      assert Gathered(query, count, serve, k) == After(query, count, serve, k - 1);
      assert |before + added| <= |before| + |added| by {
        assert |before + added| + |before * added| == |before| + |added|;
      }
      assert (k - 1) * c + c == k * c;
    }
  }

  /** The state of the page loop: the links so far, and whether the loop goes on. */
  datatype Progress = Progress(todos: set<string>, going: bool)

  /** The state of the page loop after `k` turns. */
  function Run(query: string, count: int, serve: SearchRequest -> Fetch<ResultPage>, k: nat): Progress
    decreases k, 0
  {
    if k == 0 then Progress({}, true) else Visit(query, count, serve, k - 1)
  }

  /** Turn `j` of the loop: once stopped it stays stopped; otherwise page `j` adds its links and decides. */
  function Visit(query: string, count: int, serve: SearchRequest -> Fetch<ResultPage>, j: nat): Progress
    decreases j, 1
  {
    var p := Run(query, count, serve, j);
    if p.going then Progress(p.todos + PageLinks(query, count, serve, j), Continues(query, count, serve, j)) else p
  }

  /**
   * The loop goes on after `k` pages exactly when every one of them
   * continued it, and until it stops its set is the union of the pages'
   * links.
   */
  lemma {:induction false} RunMeaning(query: string, count: int, serve: SearchRequest -> Fetch<ResultPage>, k: nat)
    ensures Run(query, count, serve, k).going <==> forall i :: 0 <= i < k ==> Continues(query, count, serve, i)
    ensures Run(query, count, serve, k).going ==> Run(query, count, serve, k).todos == Gathered(query, count, serve, k)
    decreases k
  {
    if k > 0 {
      RunMeaning(query, count, serve, k - 1);
      assert Run(query, count, serve, k) == Visit(query, count, serve, k - 1);
      assert Gathered(query, count, serve, k) == After(query, count, serve, k - 1);
    }
  }

  /** The page that stops the loop adds no links: its set is the union of the links of all pages requested. */
  lemma RunStopped(query: string, count: int, serve: SearchRequest -> Fetch<ResultPage>, k: nat)
    requires Run(query, count, serve, k).going && !Run(query, count, serve, k + 1).going
    ensures !Continues(query, count, serve, k)
    ensures PageLinks(query, count, serve, k) == {}
    ensures Run(query, count, serve, k + 1).todos == Gathered(query, count, serve, k + 1) == Gathered(query, count, serve, k)
  {
    RunMeaning(query, count, serve, k);
    var added := PageLinks(query, count, serve, k);
    assert Run(query, count, serve, k + 1) == Visit(query, count, serve, k);
    assert added == {};
    assert Gathered(query, count, serve, k + 1) == After(query, count, serve, k);
  }

  /**
   * One pass of the loop body: request page `k` at offset `start`; the
   * links of a 200 reply that parsed to something join the set, and any
   * other outcome ends the loop.
   */
  method FetchPage(query: string, count: int, serve: SearchRequest -> Fetch<ResultPage>,
                   start: int, ghost k: nat, todos: set<string>)
    returns (continua: bool, novos: set<string>)
    requires start == k * 10
    requires Run(query, count, serve, k).going && Run(query, count, serve, k).todos == todos
    ensures Run(query, count, serve, k + 1).going == continua && Run(query, count, serve, k + 1).todos == novos
  {
    assert Run(query, count, serve, k + 1) == Visit(query, count, serve, k);
    var response := serve(SearchRequest(query, start, count));
    match response {
      case Raised =>
        return false, todos;
      case Reply(status, content) =>
        if status == 200 {
          var novosLinks := ParseResults(content, count);
          if novosLinks != [] {
            assert novosLinks[0] in Elems(novosLinks);
            return true, todos + Elems(novosLinks);
          }
          assert Elems(novosLinks) == {} by {
            assert forall u :: u !in novosLinks;
          }
          assert todos + {} == todos;
          return false, todos;
        }
        assert todos + {} == todos;
        return false, todos;
    }
  }

  /**
   * The page loop of `obter_links_de_varias_paginas`: pages 0, 1, ... up
   * to `num_paginas` are requested at offsets 0, 10, ...; the loop stops at
   * the first page that raises, replies with a status other than 200 or
   * parses to no links.  `pages` is the number of pages requested.
   */
  method HarvestSet(query: string, numPaginas: int, numLinksPorPagina: int, serve: SearchRequest -> Fetch<ResultPage>)
    returns (todos: set<string>, pages: nat)
    ensures pages <= if numPaginas < 0 then 0 else numPaginas
    ensures todos == Run(query, numLinksPorPagina, serve, pages).todos
    ensures Run(query, numLinksPorPagina, serve, pages).going ==> pages >= numPaginas
    ensures !Run(query, numLinksPorPagina, serve, pages).going ==> pages > 0 && Run(query, numLinksPorPagina, serve, pages - 1).going
  {
    todos := {};
    pages := 0;
    while pages < numPaginas
      invariant pages <= if numPaginas < 0 then 0 else numPaginas
      invariant Run(query, numLinksPorPagina, serve, pages).going
      invariant Run(query, numLinksPorPagina, serve, pages).todos == todos
    {
      var start := pages * 10;
      var continua, novos := FetchPage(query, numLinksPorPagina, serve, start, pages, todos);
      todos := novos;
      pages := pages + 1;
      if !continua {
        break;
      }
    }
  }

  /**
   * `obter_links_de_varias_paginas(query, num_paginas, num_links_por_pagina)`:
   * at most `num_paginas` pages are requested; every page before the last
   * one requested continued the loop, and the last one stopped it unless it
   * was page `num_paginas`; the result lists, in no particular order and
   * once each, the links of the pages requested.
   */
  method HarvestLinks(query: string, numPaginas: int, numLinksPorPagina: int, serve: SearchRequest -> Fetch<ResultPage>)
    returns (links: seq<string>, pages: nat)
    ensures pages <= if numPaginas < 0 then 0 else numPaginas
    ensures forall i :: 0 <= i < pages - 1 ==> Continues(query, numLinksPorPagina, serve, i)
    ensures pages < numPaginas ==> pages > 0 && !Continues(query, numLinksPorPagina, serve, pages - 1)
    ensures Distinct(links)
    ensures Elems(links) == Gathered(query, numLinksPorPagina, serve, pages)
    ensures forall u :: u in links ==> IsWebUrl(u)
    ensures |links| <= pages * (if numLinksPorPagina < 0 then 0 else numLinksPorPagina)
  {
    var todos;
    todos, pages := HarvestSet(query, numPaginas, numLinksPorPagina, serve);
    if Run(query, numLinksPorPagina, serve, pages).going {
      RunMeaning(query, numLinksPorPagina, serve, pages);
    } else {
      RunMeaning(query, numLinksPorPagina, serve, pages - 1);
      RunStopped(query, numLinksPorPagina, serve, pages - 1);
    }
    GatheredWeb(query, numLinksPorPagina, serve, pages);
    GatheredBound(query, numLinksPorPagina, serve, pages);
    links := ListOfSet(todos);
  }

  /** What one link of `extrair_conteudo_links` gives: an article, or nothing when it is skipped or dropped. */
  function Entry(link: string, response: Fetch<string>): Option<Article> {
    if IsBlockedSite(link) then None
    else match response
      case Raised => Some(Article(link, ""))
      case Reply(status, text) =>
        if !Is2xx(status) then Some(Article(link, ""))
        else
          var limpo := LimparConteudo(text);
          if IsBlockedContent(limpo) then None else Some(Article(link, limpo))
  }

  /**
   * A blocked site yields nothing (and is never requested, see
   * `ExtractArticles`); a `RequestException` or a non-2xx status gives blank
   * content; a 2xx reply gives its cleaned text, or nothing when that holds
   * a block phrase.  Every article kept has clean content free of block
   * phrases.
   */
  lemma EntryRule(link: string, response: Fetch<string>)
    ensures IsBlockedSite(link) ==> Entry(link, response).None?
    ensures !IsBlockedSite(link) && response.Raised? ==> Entry(link, response) == Some(Article(link, ""))
    ensures !IsBlockedSite(link) && response.Reply? && !Is2xx(response.status) ==> Entry(link, response) == Some(Article(link, ""))
    ensures response.Reply? && Is2xx(response.status) ==>
      (Entry(link, response).None? <==> IsBlockedSite(link) || IsBlockedContent(LimparConteudo(response.body)))
    ensures Entry(link, response).Some? ==>
      var a := Entry(link, response).value;
      a.link == link && IsClean(a.conteudo) && !IsBlockedContent(a.conteudo) &&
      (a.conteudo == "" || (response.Reply? && Is2xx(response.status) && a.conteudo == LimparConteudo(response.body)))
  {
    EmptyNotBlocked();
  }

  function Opt(e: Option<Article>): seq<Article> {
    if e.Some? then [e.value] else []
  }

  /** The list `extrair_conteudo_links` builds: the entries of the links, in order. */
  function Extracted(links: seq<string>, fetch: string -> Fetch<string>): seq<Article>
    decreases |links|
  {
    if links == [] then []
    else
      var last := links[|links| - 1];
      Extracted(links[..|links| - 1], fetch) + Opt(Entry(last, fetch(last)))
  }

  /** An entry belongs to its own link. */
  lemma EntryLink(link: string, response: Fetch<string>)
    ensures Entry(link, response).Some? ==> Entry(link, response).value.link == link
  {
  }

  /** The articles keep the order of their links: those links are a subsequence of the input. */
  lemma {:induction false} ExtractedOrder(links: seq<string>, fetch: string -> Fetch<string>)
    ensures IsSubsequence(LinksOf(Extracted(links, fetch)), links)
    decreases |links|
  {
    if links != [] {
      var init := links[..|links| - 1];
      var last := links[|links| - 1];
      ExtractedOrder(init, fetch);
      var before := Extracted(init, fetch);
      var out := Extracted(links, fetch);
      assert LinksOf(out)[..|before|] == LinksOf(before);
      if Entry(last, fetch(last)).Some? {
        EntryLink(last, fetch(last));
        assert LinksOf(out)[|LinksOf(out)| - 1] == last;
      } else {
        assert out == before;
      }
    }
  }

  /** No more articles than links. */
  lemma ExtractedShorter(links: seq<string>, fetch: string -> Fetch<string>)
    ensures |Extracted(links, fetch)| <= |links|
  {
    ExtractedOrder(links, fetch);
    SubsequenceShorter(LinksOf(Extracted(links, fetch)), links);
  }

  /** An article is in the output exactly when an input link gives it as its entry. */
  lemma {:induction false} ExtractedMembers(links: seq<string>, fetch: string -> Fetch<string>)
    ensures forall a :: a in Extracted(links, fetch) <==> a.link in links && Entry(a.link, fetch(a.link)) == Some(a)
    decreases |links|
  {
    if links != [] {
      var init := links[..|links| - 1];
      var last := links[|links| - 1];
      ExtractedMembers(init, fetch);
      var e := Entry(last, fetch(last));
      EntryLink(last, fetch(last));
      var before := Extracted(init, fetch);
      assert Extracted(links, fetch) == before + Opt(e);
      assert links == init + [last];
      forall a ensures a in Extracted(links, fetch) <==> a.link in links && Entry(a.link, fetch(a.link)) == Some(a) {
        assert a in Extracted(links, fetch) <==> a in before || a in Opt(e);
        assert a in Opt(e) <==> a.link == last && e == Some(a);
        assert a.link in links <==> a.link in init || a.link == last;
      }
    }
  }

  /** The links `extrair_conteudo_links` issues a GET for, in order. */
  function Requested(links: seq<string>): (r: seq<string>)
    ensures |r| <= |links|
    decreases |links|
  {
    if links == [] then []
    else
      var last := links[|links| - 1];
      Requested(links[..|links| - 1]) + (if IsBlockedSite(last) then [] else [last])
  }

  /** Exactly the links that are not blocked sites are requested. */
  lemma {:induction false} RequestedMembers(links: seq<string>)
    ensures forall u :: u in Requested(links) <==> u in links && !IsBlockedSite(u)
    decreases |links|
  {
    if links != [] {
      var last := links[|links| - 1];
      RequestedMembers(links[..|links| - 1]);
      assert links == links[..|links| - 1] + [last];
    }
  }

  lemma RequestedStep(links: seq<string>, i: nat, asked: bool)
    requires i < |links| && (asked <==> !IsBlockedSite(links[i]))
    ensures Requested(links[..i + 1]) == Requested(links[..i]) + (if asked then [links[i]] else [])
  {
    assert links[..i + 1][..i] == links[..i];
  }

  /** The body of the loop of `extrair_conteudo_links` for one link; `asked` tells whether the GET was issued. */
  method ExtractOne(link: string, fetch: string -> Fetch<string>) returns (entry: Option<Article>, asked: bool)
    ensures entry == Entry(link, fetch(link))
    ensures asked <==> !IsBlockedSite(link)
  {
    if IsBlockedSite(link) {
      return None, false;
    }
    asked := true;
    var response := fetch(link);
    match response {
      case Raised =>
        entry := Some(Article(link, ""));
      case Reply(status, text) =>
        if Is2xx(status) {
          var limpo := LimparConteudo(text);
          if IsBlockedContent(limpo) {
            return None, true;
          }
          entry := Some(Article(link, limpo));
        } else {
          entry := Some(Article(link, ""));
        }
    }
  }

  /**
   * `extrair_conteudo_links(links)`; `fetch` stands for the GET issued for
   * a link that is not a blocked site, its body for the joined text of the
   * page's text-bearing elements.
   */
  method ExtractArticles(links: seq<string>, fetch: string -> Fetch<string>) returns (artigos: seq<Article>, requested: seq<string>)
    ensures artigos == Extracted(links, fetch)
    ensures requested == Requested(links)
  {
    artigos := [];
    requested := [];
    for i := 0 to |links|
      invariant artigos == Extracted(links[..i], fetch)
      invariant requested == Requested(links[..i])
    {
      var entry, asked := ExtractOne(links[i], fetch);
      assert links[..i + 1][..i] == links[..i];
      RequestedStep(links, i, asked);
      if asked {
        requested := requested + [links[i]];
      }
      if entry.Some? {
        artigos := artigos + [entry.value];
      }
    }
    assert links[..|links|] == links;
  }
}
