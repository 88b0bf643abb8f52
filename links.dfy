/**
 * What the three result-page parsers share: a page reduced to the candidate
 * URLs its markup offers, the "count qualifying anchors up to `num_links`"
 * loop, and Python's `list(set)`.
 */
module Links {
  import opened Wrappers
  import opened Text
  import opened Url

  /** A fetched HTML body: `Blank` is an empty or missing body (falsy in Python), `Doc` lists what the parser finds in it. */
  datatype Html<T> = Blank | Doc(items: seq<T>)

  /**
   * One HTTP GET: the request raised an exception that the caller catches,
   * or a reply with a status code and a body.
   */
  datatype Fetch<T> = Raised | Reply(status: int, body: T)

  /** `status_code >= 200 and status_code < 300`. */
  predicate Is2xx(status: int) {
    200 <= status < 300
  }

  /** One entry of `artigos`: `{"link": link, "conteudo": conteudo}`. */
  datatype Article = Article(link: string, conteudo: string)

  function LinksOf(artigos: seq<Article>): (r: seq<string>)
    ensures |r| == |artigos| && forall i :: 0 <= i < |artigos| ==> r[i] == artigos[i].link
  {
    seq(|artigos|, i requires 0 <= i < |artigos| => artigos[i].link)
  }

  /** `a` is `b` with some elements left out, the rest kept in order. */
  predicate IsSubsequence<T(==)>(a: seq<T>, b: seq<T>)
    decreases |b|
  {
    a == [] ||
    (b != [] &&
      ((a[|a| - 1] == b[|b| - 1] && IsSubsequence(a[..|a| - 1], b[..|b| - 1])) ||
       IsSubsequence(a, b[..|b| - 1])))
  }

  lemma {:induction false} SubsequenceShorter<T>(a: seq<T>, b: seq<T>)
    requires IsSubsequence(a, b)
    ensures |a| <= |b|
    decreases |b|
  {
    if a != [] {
      if a[|a| - 1] == b[|b| - 1] && IsSubsequence(a[..|a| - 1], b[..|b| - 1]) {
        SubsequenceShorter(a[..|a| - 1], b[..|b| - 1]);
      } else {
        SubsequenceShorter(a, b[..|b| - 1]);
      }
    }
  }

  /** A candidate survives the parser's scheme test. */
  function Kept(c: Option<string>): seq<string> {
    if c.Some? && IsWebUrl(c.value) then [c.value] else []
  }

  /** The candidates that pass the scheme test, in page order, repeats included. */
  function WebLinks(cands: seq<Option<string>>): (r: seq<string>)
    ensures |r| <= |cands|
    decreases |cands|
  {
    if cands == [] then []
    else WebLinks(cands[..|cands| - 1]) + Kept(cands[|cands| - 1])
  }

  /** A link is among the web links exactly when some candidate offers it and it passes the scheme test. */
  lemma {:induction false} WebLinksMembers(cands: seq<Option<string>>)
    ensures forall u :: u in WebLinks(cands) <==> Some(u) in cands && IsWebUrl(u)
    decreases |cands|
  {
    if cands != [] {
      var init := cands[..|cands| - 1];
      WebLinksMembers(init);
      assert cands == init + [cands[|cands| - 1]];
    }
  }

  lemma {:induction false} WebLinksAppend(a: seq<Option<string>>, b: seq<Option<string>>)
    ensures WebLinks(a + b) == WebLinks(a) + WebLinks(b)
    decreases |b|
  {
    if b == [] {
      assert a + b == a;
    } else {
      var init := b[..|b| - 1];
      assert (a + b)[..|a + b| - 1] == a + init;
      WebLinksAppend(a, init);
    }
  }

  /**
   * The links a parser returns: the set of the first `n` candidates that
   * pass the scheme test.  The counter moves on every passing candidate,
   * repeated or not.
   */
  function FirstWebLinks(cands: seq<Option<string>>, n: int): set<string> {
    Elems(Take(WebLinks(cands), n))
  }

  /** At most `n` links are taken. */
  lemma FirstWebLinksCard(cands: seq<Option<string>>, n: int)
    ensures |FirstWebLinks(cands, n)| <= if n < 0 then 0 else n
  {
    ElemsCard(Take(WebLinks(cands), n));
  }

  /** Every link taken is offered by some candidate and passes the scheme test. */
  lemma FirstWebLinksMembers(cands: seq<Option<string>>, n: int)
    ensures forall u :: u in FirstWebLinks(cands, n) ==> IsWebUrl(u) && Some(u) in cands
  {
    WebLinksMembers(cands);
  }

  lemma WebLinksSingle(c: Option<string>)
    ensures WebLinks([c]) == Kept(c)
  {
    assert [c][..0] == [];
  }

  /**
   * The limit counts qualifying anchors, not distinct links: with two
   * slots, a repeated first link fills both and the next link is not taken.
   */
  lemma LimitCountsRepeats(u: string, v: string, rest: seq<Option<string>>)
    requires IsWebUrl(u) && IsWebUrl(v) && u != v
    ensures FirstWebLinks([Some(u), Some(u), Some(v)] + rest, 2) == {u}
  {
    var w := WebLinks([Some(u), Some(u), Some(v)] + rest);
    ThreeWebLinks(u, v, rest);
    var t := Take(w, 2);
    assert t == [u, u];
    assert forall x :: x in t <==> x == u;
    assert Elems(t) == {u};
  }

  lemma TwoWebLinks(u: string)
    requires IsWebUrl(u)
    ensures WebLinks([Some(u)] + [Some(u)]) == [u, u]
  {
    WebLinksSingle(Some(u));
    WebLinksAppend([Some(u)], [Some(u)]);
  }

  lemma ThreeWebLinks(u: string, v: string, rest: seq<Option<string>>)
    requires IsWebUrl(u) && IsWebUrl(v)
    ensures var w := WebLinks([Some(u), Some(u), Some(v)] + rest); |w| >= 2 && w[..2] == [u, u]
  {
    var two := [Some(u)] + [Some(u)];
    var tail := [Some(v)] + rest;
    assert [Some(u), Some(u), Some(v)] + rest == two + tail;
    TwoWebLinks(u);
    WebLinksAppend(two, tail);
  }

  /** Python's `list(s)` for a set: every member once, in an order the model leaves open. */
  method ListOfSet(s: set<string>) returns (r: seq<string>)
    ensures Distinct(r)
    ensures Elems(r) == s
    ensures |r| == |s|
  {
    r := [];
    var rest := s;
    while rest != {}
      invariant Distinct(r)
      invariant Elems(r) + rest == s
      invariant Elems(r) !! rest
      invariant |r| + |rest| == |s|
      decreases |rest|
    {
      var x :| x in rest;
      r := r + [x];
      rest := rest - {x};
    }
  }

  /** One more candidate: the prefix's web links grow by what that candidate keeps. */
  lemma WebLinksStep(cands: seq<Option<string>>, i: nat)
    requires i < |cands|
    ensures WebLinks(cands[..i + 1]) == WebLinks(cands[..i]) + Kept(cands[i])
  {
    assert cands[..i + 1][..i] == cands[..i];
  }

  /** Taking `n` elements of `w + rest` gives back `w` once `w` has `n` elements or nothing follows it. */
  lemma TakePrefix<T>(w: seq<T>, rest: seq<T>, n: int)
    requires |w| <= if n < 0 then 0 else n
    requires rest == [] || |w| >= n
    ensures Take(w + rest, n) == w
  {
    assert (w + rest)[..|w|] == w;
  }

  /**
   * Once a prefix holds `n` web links, or is the whole page, its links are
   * the first `n` of the page.
   */
  lemma FirstWebLinksAt(cands: seq<Option<string>>, i: nat, n: int)
    requires i <= |cands|
    requires |WebLinks(cands[..i])| <= if n < 0 then 0 else n
    requires i == |cands| || |WebLinks(cands[..i])| >= n
    ensures FirstWebLinks(cands, n) == Elems(WebLinks(cands[..i]))
  {
    assert cands == cands[..i] + cands[i..];
    WebLinksAppend(cands[..i], cands[i..]);
    if i == |cands| {
      assert cands[i..] == [];
    }
    TakePrefix(WebLinks(cands[..i]), WebLinks(cands[i..]), n);
  }

  /** One turn of the shared loop: a candidate that passes the scheme test joins the set and is counted. */
  method CollectOne(c: Option<string>, linksUnicos: set<string>, count: int) returns (linksUnicos': set<string>, count': int)
    ensures linksUnicos' == linksUnicos + Elems(Kept(c))
    ensures count' == count + |Kept(c)|
  {
    linksUnicos', count' := linksUnicos, count;
    if c.Some? && IsWebUrl(c.value) {
      linksUnicos' := linksUnicos + {c.value};
      count' := count + 1;
    }
  }

  /**
   * The loop the three parsers share: walk the candidates, stop once
   * `count >= numLinks`, add every candidate that passes the scheme test to
   * a set and count it, then return the set as a list.
   */
  method CollectWebLinks(cands: seq<Option<string>>, numLinks: int) returns (links: seq<string>)
    ensures Distinct(links)
    ensures Elems(links) == FirstWebLinks(cands, numLinks)
    ensures forall u :: u in links ==> IsWebUrl(u)
    ensures |links| <= if numLinks < 0 then 0 else numLinks
  {
    var linksUnicos: set<string> := {};
    var count := 0;
    var i := 0;
    while i < |cands|
      invariant 0 <= i <= |cands|
      invariant count == |WebLinks(cands[..i])|
      invariant count <= if numLinks < 0 then 0 else numLinks
      invariant linksUnicos == Elems(WebLinks(cands[..i]))
    {
      if count >= numLinks {
        break;
      }
      WebLinksStep(cands, i);
      linksUnicos, count := CollectOne(cands[i], linksUnicos, count);
      i := i + 1;
    }
    FirstWebLinksAt(cands, i, numLinks);
    FirstWebLinksMembers(cands, numLinks);
    FirstWebLinksCard(cands, numLinks);
    links := ListOfSet(linksUnicos);
  }
}
