/**
 * extracao_noticias.py, the middle of `main`: the search, the link
 * parser and the article fetch run one after the other, and the articles
 * are put into the `json_saida` dictionary (`Consulta`, `Data de
 * Pesquisa`, then `link1` … `linkN`), which the classification step reads
 * back through `list(noticias.keys())[2:]`.
 */
module HandOff {
  import opened Wrappers
  import opened Text
  import opened Links
  import opened Noticias

  /** A value of the dictionary: a plain string, or the `{"link", "texto"}` record of one article. */
  datatype Value = Texto(s: string) | Noticia(link: string, texto: string)

  /** A Python dictionary: its entries in insertion order. */
  type Dict = seq<(string, Value)>

  function Keys(d: Dict): (r: seq<string>)
    ensures |r| == |d| && forall i :: 0 <= i < |d| ==> r[i] == d[i].0
  {
    seq(|d|, i requires 0 <= i < |d| => d[i].0)
  }

  /** `d.get(k)`. */
  function Get(d: Dict, k: string): Option<Value>
    decreases |d|
  {
    if d == [] then None
    else if d[0].0 == k then Some(d[0].1)
    else Get(d[1..], k)
  }

  /** `d[k] = v`: a key already present keeps its place and takes the new value; a new key goes last. */
  function Put(d: Dict, k: string, v: Value): Dict
    decreases |d|
  {
    if d == [] then [(k, v)]
    else if d[0].0 == k then [(k, v)] + d[1..]
    else [d[0]] + Put(d[1..], k, v)
  }

  /** After `d[k] = v` the key reads back as `v` and every other key as before. */
  lemma {:induction false} PutGet(d: Dict, k: string, v: Value)
    ensures Get(Put(d, k, v), k) == Some(v)
    ensures forall k' :: k' != k ==> Get(Put(d, k, v), k') == Get(d, k')
    decreases |d|
  {
    if d != [] && d[0].0 != k {
      PutGet(d[1..], k, v);
      var p := Put(d, k, v);
      assert p[1..] == Put(d[1..], k, v);
    }
  }

  /** A new key is appended. */
  lemma {:induction false} PutNew(d: Dict, k: string, v: Value)
    requires k !in Keys(d)
    ensures Put(d, k, v) == d + [(k, v)]
    decreases |d|
  {
    if d != [] {
      assert Keys(d[1..]) == Keys(d)[1..];
      PutNew(d[1..], k, v);
      assert d == [d[0]] + d[1..];
    }
  }

  /** A present key keeps the order of the keys. */
  lemma {:induction false} PutOld(d: Dict, k: string, v: Value)
    requires k in Keys(d)
    ensures Keys(Put(d, k, v)) == Keys(d)
    decreases |d|
  {
    if d[0].0 != k {
      assert Keys(d[1..]) == Keys(d)[1..];
      assert k in Keys(d[1..]);
      PutOld(d[1..], k, v);
      assert Keys(Put(d, k, v)) == [d[0].0] + Keys(Put(d[1..], k, v));
    }
  }

  // ---------------------------------------------------------------- keys link1, link2, ...

  function DigitChar(d: nat): char
    requires d < 10
  {
    ('0' as int + d) as char
  }

  /** `str(n)`. */
  function Decimal(n: nat): (r: string)
    ensures |r| >= 1
    ensures n >= 10 ==> |r| >= 2
    decreases n
  {
    if n < 10 then [DigitChar(n)] else Decimal(n / 10) + [DigitChar(n % 10)]
  }

  /** Different numbers are written differently. */
  lemma {:induction false} DecimalInjective(a: nat, b: nat)
    requires Decimal(a) == Decimal(b)
    ensures a == b
    decreases a
  {
    if a >= 10 && b >= 10 {
      var da := Decimal(a);
      assert da[..|da| - 1] == Decimal(a / 10);
      assert Decimal(b)[..|da| - 1] == Decimal(b / 10);
      DecimalInjective(a / 10, b / 10);
      assert da[|da| - 1] == DigitChar(a % 10);
      assert Decimal(b)[|da| - 1] == DigitChar(b % 10);
    }
  }

  /** `f"link{idx}"`. */
  function LinkKey(idx: nat): string {
    "link" + Decimal(idx)
  }

  lemma LinkKeyInjective(a: nat, b: nat)
    requires LinkKey(a) == LinkKey(b)
    ensures a == b
  {
    assert LinkKey(a)[4..] == Decimal(a);
    assert LinkKey(b)[4..] == Decimal(b);
    DecimalInjective(a, b);
  }

  // ---------------------------------------------------------------- json_saida

  const Header: seq<string> := ["Consulta", "Data de Pesquisa"]

  /** The entries `link1` … `linkN` of the articles, in order. */
  function LinkEntries(artigos: seq<Article>): (r: Dict)
    ensures |r| == |artigos|
    ensures forall i :: 0 <= i < |artigos| ==> r[i] == (LinkKey(i + 1), Noticia(artigos[i].link, artigos[i].conteudo))
  {
    seq(|artigos|, i requires 0 <= i < |artigos| => (LinkKey(i + 1), Noticia(artigos[i].link, artigos[i].conteudo)))
  }

  /** The dictionary `main` writes to `output.json`. */
  function HandOffOf(consulta: string, data: string, artigos: seq<Article>): Dict {
    [("Consulta", Texto(consulta)), ("Data de Pesquisa", Texto(data))] + LinkEntries(artigos)
  }

  /** The key of the next article is not in the dictionary yet. */
  lemma NextKeyIsNew(consulta: string, data: string, artigos: seq<Article>)
    ensures LinkKey(|artigos| + 1) !in Keys(HandOffOf(consulta, data, artigos))
  {
    var d := HandOffOf(consulta, data, artigos);
    var k := LinkKey(|artigos| + 1);
    if k in Keys(d) {
      var i :| 0 <= i < |d| && Keys(d)[i] == k;
      assert k[0] == 'l';
      if i >= 2 {
        assert d[i] == LinkEntries(artigos)[i - 2];
        LinkKeyInjective(i - 1, |artigos| + 1);
      }
    }
  }

  /**
   * The loop at the end of the search: the two header keys, then one key
   * per article, numbered from 1.
   */
  method BuildHandOff(consulta: string, data: string, artigos: seq<Article>) returns (json: Dict)
    ensures json == HandOffOf(consulta, data, artigos)
  {
    json := [];
    json := Put(json, "Consulta", Texto(consulta));
    assert "Data de Pesquisa"[0] != "Consulta"[0];
    PutNew(json, "Data de Pesquisa", Texto(data));
    json := Put(json, "Data de Pesquisa", Texto(data));
    assert LinkEntries([]) == [];
    assert json == HandOffOf(consulta, data, []);
    for idx := 1 to |artigos| + 1
      invariant json == HandOffOf(consulta, data, artigos[..idx - 1])
    {
      var artigo := artigos[idx - 1];
      NextKeyIsNew(consulta, data, artigos[..idx - 1]);
      PutNew(json, LinkKey(idx), Noticia(artigo.link, artigo.conteudo));
      json := Put(json, LinkKey(idx), Noticia(artigo.link, artigo.conteudo));
      assert artigos[..idx] == artigos[..idx - 1] + [artigo];
      assert LinkEntries(artigos[..idx]) == LinkEntries(artigos[..idx - 1]) + [(LinkKey(idx), Noticia(artigo.link, artigo.conteudo))];
    }
    assert artigos[..|artigos|] == artigos;
  }

  /** The keys of the dictionary are pairwise different, as a dictionary's are. */
  lemma HandOffKeysDistinct(consulta: string, data: string, artigos: seq<Article>)
    ensures Keys(HandOffOf(consulta, data, artigos)) == Header + Keys(LinkEntries(artigos))
    ensures Distinct(Keys(HandOffOf(consulta, data, artigos)))
  {
    var d := HandOffOf(consulta, data, artigos);
    var ks := Keys(d);
    assert ks == Header + Keys(LinkEntries(artigos));
    forall i, j | 0 <= i < j < |ks| ensures ks[i] != ks[j] {
      if i >= 2 {
        assert ks[i] == LinkKey(i - 1) && ks[j] == LinkKey(j - 1);
        if ks[i] == ks[j] {
          LinkKeyInjective(i - 1, j - 1);
        }
      } else if j >= 2 {
        assert ks[j] == LinkKey(j - 1) && ks[j][0] == 'l';
      }
    }
  }

  // ---------------------------------------------------------------- read-back

  /** `list(noticias.keys())[2:]`, and for each key the value the classification step receives. */
  function ReadBack(d: Dict): seq<Option<Value>> {
    var ks := SliceFrom(Keys(d), 2);
    seq(|ks|, i requires 0 <= i < |ks| => Get(d, ks[i]))
  }

  /** `s[n:]` for `n >= 0`. */
  function SliceFrom<T>(s: seq<T>, n: nat): (r: seq<T>)
    ensures |s| >= n ==> r == s[n..]
    ensures |s| < n ==> r == []
  {
    if |s| >= n then s[n..] else []
  }

  /** Looking up the `i`-th article key finds that article's entry. */
  lemma {:induction false} GetLinkEntry(consulta: string, data: string, artigos: seq<Article>, i: nat)
    requires i < |artigos|
    ensures Get(HandOffOf(consulta, data, artigos), LinkKey(i + 1)) == Some(Noticia(artigos[i].link, artigos[i].conteudo))
  {
    var d := HandOffOf(consulta, data, artigos);
    HandOffKeysDistinct(consulta, data, artigos);
    assert d[i + 2] == LinkEntries(artigos)[i];
    GetAt(d, i + 2);
  }

  /** With distinct keys, the `i`-th key finds the `i`-th value. */
  lemma {:induction false} GetAt(d: Dict, i: nat)
    requires i < |d|
    requires Distinct(Keys(d))
    ensures Get(d, d[i].0) == Some(d[i].1)
    decreases i
  {
    if i > 0 {
      assert Keys(d[1..]) == Keys(d)[1..];
      assert d[0].0 == Keys(d)[0] && d[i].0 == Keys(d)[i];
      GetAt(d[1..], i - 1);
    }
  }

  /**
   * The hand-off round trip: reading the dictionary back gives, in the
   * original order, each article's link and its content as `texto`; the
   * two header keys give the query and the date.
   */
  lemma RoundTrip(consulta: string, data: string, artigos: seq<Article>)
    ensures ReadBack(HandOffOf(consulta, data, artigos)) ==
      seq(|artigos|, i requires 0 <= i < |artigos| => Some(Noticia(artigos[i].link, artigos[i].conteudo)))
    ensures Get(HandOffOf(consulta, data, artigos), "Consulta") == Some(Texto(consulta))
    ensures Get(HandOffOf(consulta, data, artigos), "Data de Pesquisa") == Some(Texto(data))
  {
    var d := HandOffOf(consulta, data, artigos);
    HandOffKeysDistinct(consulta, data, artigos);
    var ks := SliceFrom(Keys(d), 2);
    assert |ks| == |artigos|;
    forall i | 0 <= i < |artigos| ensures ReadBack(d)[i] == Some(Noticia(artigos[i].link, artigos[i].conteudo)) {
      assert ks[i] == LinkKey(i + 1);
      GetLinkEntry(consulta, data, artigos, i);
    }
  }

  // ---------------------------------------------------------------- the search step of main

  /** The search URL of `obter_resultados_pesquisa_google`. */
  function SearchUrl(query: string): string {
    "https://www.google.com/search?q=" + query
  }

  /**
   * The search step of `main` for `termo_pesquisa`: fetch the results,
   * parse at most twenty links, fetch the articles and build the
   * dictionary.  Without a results page there is no dictionary (the
   * source then fails later, when it reads `json_saida`).
   */
  method Pesquisar(termo: string, data: string, serve: string -> Fetch<ResultPage>, fetch: string -> Fetch<string>)
    returns (links: seq<string>, json: Option<Dict>)
    ensures json.None? <==> ResultsHtml(serve(SearchUrl(termo))).Blank?
    ensures Distinct(links) && Elems(links) == ParsedSet(ResultsHtml(serve(SearchUrl(termo))), NumLinks)
    ensures json.Some? ==> json.value == HandOffOf(termo, data, Extracted(links, fetch))
  {
    var htmlResultados := ResultsHtml(serve(SearchUrl(termo)));
    links := ParseResults(htmlResultados, NumLinks);
    if htmlResultados.Blank? {
      return links, None;
    }
    var artigos := ExtractArticles(links, fetch);
    var saida := BuildHandOff(termo, data, artigos);
    json := Some(saida);
  }
}
