# AML news scraper: a Dafny model of its deterministic core

The repository is an anti-money-laundering helper. It searches the web for news about a person, fetches the articles and
has a language model classify each one (the crimes mentioned, a risk level of *alto*, *médio* or *baixo*, and a summary).
It then aggregates the classifications into a final risk, a combined summary and a list of crimes. Three near-duplicate
scripts do the searching, each with its own policy:

- `extracao_noticias.py` is the Streamlit application. It makes one Google request, takes every anchor of the page,
  fetches every link, and drops blocked sites only when their request succeeded. It then builds the `json_saida`
  hand-off dictionary, reads it back, sorts the classified rows by risk and aggregates them.
- `request_google_version4.py` takes one link per `div.g`, unwrapping `/url?q=` redirects. It keeps one entry per
  link, blanking failures and blocked content. Its `main` tops up the link set page by page.
- `request_bing_version1.py` takes one link per `li.b_algo` and walks a fixed number of result pages, stopping at the
  first empty or failed one. It skips blocked sites without requesting them and drops blocked content.

The network, BeautifulSoup and the language model are not modelled. A fetched page is the list of candidate hrefs its
markup offers (`Links.Html`). A GET is `Raised` or `Reply(status, body)` (`Links.Fetch`). The servers are
function parameters (`serve`, `fetch`), so every property below holds for whatever the network returns.

Modules, in dependency order:

| module | file | content |
|---|---|---|
| `Wrappers` | wrappers.dfy | `Option` |
| `Text` | text.dfy | `str.lower`, `strip`, `lstrip`, `split`, `join`, `in` on strings, slicing |
| `StringOrder` | order.dfy | code-point order of `sorted`, `sorted(set(xs))` |
| `Url` | url.dfy | `urlparse(u).scheme`, `parse_qs(urlparse(u).query).get("q")` |
| `Sanitize` | sanitize.dfy | `limpar_conteudo` (identical in the Google and Bing scripts) |
| `Blocking` | blocking.dfy | block phrases and blocked-site lists |
| `Links` | links.dfy | the shared "first `num_links` qualifying anchors into a set" parser loop, `list(set)` |
| `GoogleV4` | google.dfy | request_google_version4.py |
| `BingV1` | bing.dfy | request_bing_version1.py |
| `Noticias` | noticias.dfy | extracao_noticias.py: search, parser, article fetch |
| `HandOff` | handoff.dfy | extracao_noticias.py: the `json_saida` dictionary and the search step of `main` |
| `Aggregation` | aggregate.dfy | extracao_noticias.py: `risco_final`, the risk sort, the summary input, the crime list |

The loops of the source are methods with loop invariants. Each method is proved equal to a specification function:
- the parsers: `CollectWebLinks` against `FirstWebLinks`;
- the fetch loops: `ExtractArticles` against `Extracted`;
- the Google harvest: `HarvestSet`, and the corrected `HarvestUntilDry`, against `Gathered`;
- the Bing page loop: `HarvestSet` against `Run`;
- the dictionary build: `BuildHandOff` against `HandOffOf`.

The lemmas then state what the source promises of those functions. Python's `list(set)` has no fixed order, so
`Links.ListOfSet` picks any order. The contracts speak of the set, the absence of duplicates and the length.

## Model

| member | source | states |
|---|---|---|
| Text.Lower | extracao_noticias.py:259 | `str.lower()`: same length, each character lowered |
| Text.StripLeft | extracao_noticias.py:386 | the left half of `strip()`: a suffix of the input, every dropped character is whitespace, and the result does not start with whitespace |
| Text.StripRight | extracao_noticias.py:386 | the right half of `strip()`: a prefix of the input, every dropped character is whitespace, and the result does not end with whitespace |
| Text.Strip | extracao_noticias.py:386 | `strip()`: no longer than the input, and neither end of the result is whitespace; what it drops is stated by Text.StripMiddle |
| Text.StripMiddle | extracao_noticias.py:386 | `strip()` removes whitespace only: the result is the stretch of the input that starts after its leading whitespace, and every character before or after that stretch is whitespace |
| Text.StripKept | extracao_noticias.py:386 | helper: the result of `strip()` is a contiguous stretch of the input |
| Text.StripTrailing | extracao_noticias.py:386 | helper: everything after that stretch is whitespace |
| Text.StripEnds | extracao_noticias.py:386 | helper: neither end of the stripped text is whitespace |
| Text.StripLeftChars | extracao_noticias.py:392 | `lstrip(chars)`: a suffix of the input, every dropped character is one of `chars`, and the first remaining character is not |
| Text.Split | extracao_noticias.py:386 | `split(sep)`: at least one part, and no part contains the separator |
| Text.Join | extracao_noticias.py:233 | `sep.join(parts)`: nothing for no parts, the part itself for one, otherwise the parts with `sep` between each two (partners: `JoinSnoc`, `JoinSplit`) |
| Text.JoinSplit | extracao_noticias.py:386 | joining the parts of `split(sep)` with `sep` gives back the string |
| Text.JoinSnoc | extracao_noticias.py:233 | joining one more part appends the separator and that part |
| Text.JoinHead | extracao_noticias.py:391 | helper: a join starts with the first character of its first part when that part is not empty |
| Text.Contains | extracao_noticias.py:131-137 | `needle in s`: the needle is a prefix of some suffix; the empty needle is in every string (partner: `ContainsAt`) |
| Text.ContainsAt | extracao_noticias.py:130-138 | `needle in s` holds when the needle occurs at any offset |
| Text.SliceTo | request_google_version4.py:167 | `s[:n]`: a prefix, of length `min(n, len(s))` for `n >= 0` and `max(len(s) + n, 0)` for a negative `n` |
| Text.Take | request_google_version4.py:45-46 | the first `n` elements, none when `n <= 0` |
| Text.ElemsCard | request_google_version4.py:60 | a list has at least as many entries as its set, exactly as many when it has no repeats |
| StringOrder.BelowIrreflexive | extracao_noticias.py:391 | no string sorts before itself |
| StringOrder.BelowTransitive | extracao_noticias.py:391 | the order of `sorted` is transitive |
| StringOrder.BelowTotal | extracao_noticias.py:391 | any two different strings are ordered one way |
| StringOrder.BelowAsymmetric | extracao_noticias.py:391 | never both `a < b` and `b < a` |
| StringOrder.EmptyFirst | extracao_noticias.py:391 | helper: the empty string sorts before every other string |
| StringOrder.Insert | extracao_noticias.py:391 | inserting into a strictly ascending list keeps it strictly ascending and adds exactly that element |
| StringOrder.SortedSet | extracao_noticias.py:388-391 | `sorted(set(xs))`: strictly ascending, with the same elements as `xs` |
| StringOrder.SortedDistinct | extracao_noticias.py:391 | a strictly ascending list has no repeats |
| StringOrder.HeadIsLeast | extracao_noticias.py:391 | the first element of a strictly ascending list is its least |
| StringOrder.TailElems | extracao_noticias.py:391 | the tail of a strictly ascending list is strictly ascending and lacks only the head |
| StringOrder.HeadsAgree | extracao_noticias.py:391 | two strictly ascending lists of one set start alike |
| StringOrder.SortedUnique | extracao_noticias.py:388-391 | a set has exactly one strictly ascending listing |
| Url.Find | request_google_version4.py:53 | the first index of a character, or -1 when it is absent |
| Url.FindFirst | request_google_version4.py:53 | `Find` returns the first occurrence |
| Url.Scheme | request_google_version4.py:56 | `urlparse(u).scheme`: the lower-cased run of scheme characters before the first `:` when the URL starts with an ASCII letter, otherwise empty (partners: `SchemePartFound`, `SchemeOfWord`) |
| Url.IsWebUrl | request_google_version4.py:56 | the scheme is `http` or `https` (partner: `WebUrlIffPrefix`, an independent reading by prefix) |
| Url.SchemePartFound | request_google_version4.py:56 | a scanned scheme is the lower-cased run of scheme characters before a `:` |
| Url.SchemePartOf | request_google_version4.py:56 | scheme characters up to a `:` are scanned as the scheme |
| Url.LowerToAsciiLetter | request_google_version4.py:56 | helper: only the letter itself or its capital lowers to an ASCII letter |
| Url.LowerLetters | request_google_version4.py:56 | a prefix that lowers to a word of letters is made of ASCII letters |
| Url.WebUrlIffPrefix | request_google_version4.py:56 | `urlparse(u).scheme in ["http", "https"]` exactly when `u` starts with `http:` or `https:`, ignoring case |
| Url.WebUrlHasPrefix | request_bing_version1.py:80 | a URL that passes the scheme test starts with `http:` or `https:`, ignoring case |
| Url.SchemeOfWord | extracao_noticias.py:107-108 | a URL that starts with a word of letters and `:` has that word, lower-cased, as scheme |
| Url.PrefixIsWebUrl | extracao_noticias.py:107-108 | every `http:` or `https:` URL passes the scheme test |
| Url.SplitWithout | request_google_version4.py:53 | splitting a string without the separator gives the string alone |
| Url.SplitAtFirst | request_google_version4.py:53 | `split` cuts at the first separator and carries on with the rest |
| Url.Query | request_google_version4.py:53 | `urlparse(u).query`: the text after the first `?` of the part before the first `#`, empty without a `?` (partner: `RedirectQuery`) |
| Url.QueryValue | request_google_version4.py:53-54 | `parse_qs(query).get(name, [None])[0]`: the value of the first `name=` field whose value is not blank, `None` when there is none (partners: `QueryValueSkip`, `QueryValueFirst`) |
| Url.RedirectTarget | request_google_version4.py:52-54 | the `q` value of a `/url?` redirect, looked up among the `&`-separated fields of its query (partners: `RedirectRoundTrip`, `RedirectBlank`) |
| Url.RedirectQuery | request_google_version4.py:53 | the query of `/url?...` is the text after `?` |
| Url.RedirectFields | request_google_version4.py:53-54 | the target of a redirect is the `q` value among the `&`-separated fields |
| Url.QueryValueSkip | request_google_version4.py:54 | a field that cannot be a non-blank `q` is passed over |
| Url.QueryValueFirst | request_google_version4.py:54 | a leading non-blank `q=` field gives its value |
| Url.RedirectRoundTrip | request_google_version4.py:52-54 | `/url?q=T` and `/url?q=T&more` both unwrap to `T`, for a target without `%` or `+` (which `parse_qs` would decode) |
| Url.RoundTripBare | request_google_version4.py:52-54 | `/url?q=T` unwraps to `T`, for a target without `%` or `+` |
| Url.RoundTripWithMore | request_google_version4.py:52-54 | `/url?q=T&more` unwraps to `T`, for a target without `%` or `+` |
| Url.RedirectSplit | request_google_version4.py:53-54 | the target is looked up among the first field and the fields of the rest |
| Url.RedirectBlank | request_google_version4.py:53-54 | a blank `q` gives no target by itself, and with more fields the lookup moves on to them |
| Url.BlankAlone | request_google_version4.py:54 | `/url?q=` has no target (`parse_qs` drops blank values) |
| Url.BlankThenMore | request_google_version4.py:54 | after a blank `q` the lookup moves on to the following fields |
| Sanitize.Remove | request_google_version4.py:135 | `replace(c, "")` never lengthens the text |
| Sanitize.Replace | request_google_version4.py:135 | `replace(c, d)` changes each `c` to `d` and nothing else |
| Sanitize.CollapseSpaces | request_google_version4.py:136 | `re.sub(" +", " ", s)` leaves no two adjacent spaces, brings in no character, and keeps the first; what it removes is stated by Sanitize.CollapseOnlySpaces, and that a run becomes exactly one space by Sanitize.CollapseRun |
| Sanitize.CollapseOnlySpaces | request_google_version4.py:136 | `re.sub(" +", " ", s)` removes spaces only: deleting every space from the result or from the input gives the same text |
| Sanitize.LimparConteudo | request_google_version4.py:134-138 | the cleaned text has no backslash, line feed or carriage return, no double space and no whitespace at either end |
| Sanitize.RemoveDeletes | request_google_version4.py:135 | after `replace(c, "")` no `c` is left and no other character appears |
| Sanitize.NoBreaks | request_google_version4.py:135 | the three replacements leave no backslash, `\n` or `\r` |
| Sanitize.SliceKeepsNoDoubleSpace | request_google_version4.py:138 | stripping keeps the no-double-space property |
| Sanitize.StripClean | request_google_version4.py:138 | helper: stripping a text without breaks or double spaces gives a clean text |
| Sanitize.RemoveAbsent | request_google_version4.py:135 | removing an absent character changes nothing |
| Sanitize.CollapseNoDouble | request_google_version4.py:136 | text without double spaces is left as it is |
| Sanitize.CollapseLoneSpace | request_google_version4.py:136 | a single space between two characters other than spaces survives: only runs of two or more spaces shrink |
| Sanitize.CollapseRun | request_google_version4.py:136 | `re.sub(" +", " ", s)`: a run of one or more spaces between two characters other than spaces becomes exactly one space, neither dropped nor kept longer, and the text on each side is collapsed on its own |
| Sanitize.CollapseLeadingRun | request_google_version4.py:136 | a run of one or more spaces at the front becomes exactly one space |
| Sanitize.CleanIffFixed | request_google_version4.py:134-138 | a text is left unchanged by the clean-up exactly when it is already clean |
| Sanitize.Idempotent | request_google_version4.py:134-138 | cleaning twice is cleaning once |
| Sanitize.RemoveAppend | request_google_version4.py:135 | removal works piece by piece over a concatenation |
| Sanitize.DropLineFeed | request_google_version4.py:135 | the `\n` of a `\r\n` is deleted and the `\r` stays |
| Sanitize.SpaceBetween | request_google_version4.py:136 | two clean texts joined by one space have no double space |
| Sanitize.LineBreakJoins | request_bing_version1.py:150-153 | `x\r\ny` cleans to `x y` for clean non-empty `x` and `y` |
| Sanitize.VisibleAppend | request_bing_version1.py:150-153 | the visible characters of a concatenation are those of its parts |
| Sanitize.VisibleRemove | request_bing_version1.py:151 | deleting whitespace or backslashes keeps the visible characters |
| Sanitize.VisibleReplace | request_bing_version1.py:151 | swapping one whitespace character for another keeps the visible characters |
| Sanitize.VisibleCollapse | request_bing_version1.py:152 | collapsing spaces keeps the visible characters |
| Sanitize.VisibleStripLeft | request_bing_version1.py:153 | stripping the left end keeps the visible characters |
| Sanitize.VisibleStripRight | request_bing_version1.py:153 | stripping the right end keeps the visible characters |
| Sanitize.KeepsVisible | request_bing_version1.py:150-153 | cleaning keeps every non-whitespace character other than the backslash, in order |
| Blocking.IsBlockedContent | request_google_version4.py:88-112 | the lower-cased cleaned text contains one of the six block phrases (partners: `ConteudoRule`, `EntryRule`) |
| Blocking.IsBlockedSite | request_google_version4.py:96-113 | the link contains one of the ten blocked site names (partners: `ConteudoRule`, `RequestedMembers`) |
| Blocking.IsLegacyBlockedSite | extracao_noticias.py:130-138 | the link contains one of the seven names of the older list, `tiktok` without a domain (partners: `Noticias.EntryRule`, `BlockedFailureKept`) |
| Blocking.EmptyNotBlocked | request_google_version4.py:110-113 | helper: blank content holds no block phrase and names no blocked site |
| Links.LinksOf | request_google_version4.py:116 | the links of the articles, one per article, in order |
| Links.SubsequenceShorter | request_bing_version1.py:112-147 | a subsequence is no longer than the sequence |
| Links.WebLinks | request_google_version4.py:56-58 | the candidates that pass the scheme test are no more than the candidates |
| Links.WebLinksMembers | request_google_version4.py:56-58 | a link passes exactly when some candidate offers it and its scheme is http or https |
| Links.WebLinksAppend | request_google_version4.py:44-58 | the passing candidates of two stretches of a page are those of each stretch |
| Links.FirstWebLinksCard | request_google_version4.py:45-46 | at most `num_links` links are taken |
| Links.FirstWebLinksMembers | request_google_version4.py:56-57 | every link taken has an http or https scheme and comes from the page |
| Links.WebLinksSingle | request_google_version4.py:56-58 | helper: one candidate passes or not on its own |
| Links.LimitCountsRepeats | request_google_version4.py:56-58 | the counter moves on repeats too: with a limit of two, `[u, u, v]` gives `{u}` |
| Links.TwoWebLinks | request_google_version4.py:56-58 | helper: a repeated link is passed twice |
| Links.ThreeWebLinks | request_google_version4.py:56-58 | the first two passing candidates of `[u, u, v]` are `u, u` |
| Links.ListOfSet | request_google_version4.py:60 | `list(set)`: no repeats, the same elements, the same size |
| Links.WebLinksStep | request_google_version4.py:44-58 | one more candidate adds what it passes |
| Links.TakePrefix | request_google_version4.py:45-46 | the loop stops with the first `num_links` passing candidates |
| Links.FirstWebLinksAt | request_google_version4.py:44-46 | stopping at the limit or at the end of the page gives the parser's set |
| Links.CollectOne | request_google_version4.py:48-58 | one turn adds the candidate's link to the set and moves the counter exactly when the link passes |
| Links.CollectWebLinks | request_google_version4.py:41-60 | the loop returns the first `num_links` passing candidates as a duplicate-free list of http/https links |
| GoogleV4.Candidate | request_google_version4.py:48-54 | a container's first href, replaced by its `q` target when it starts with `/url?q=` (partner: `CandidateUnwraps`) |
| GoogleV4.Candidates | request_google_version4.py:44-54 | one candidate per `div.g`, its first href unwrapped |
| GoogleV4.CandidateUnwraps | request_google_version4.py:52-54 | a `/url?q=T` href yields `T`, also with more parameters, for a target without `%` or `+`; a blank `q` yields nothing |
| GoogleV4.ParseResults | request_google_version4.py:35-62 | `[]` for an empty page; no repeats; at most `num_links`; the set of the first `num_links` passing containers |
| GoogleV4.Conteudo | request_google_version4.py:72-129 | the content recorded for one link from its request: blank after a `RequestException`, a non-2xx status, a block phrase or a blocked site, else the cleaned text (partners: `ConteudoRule`, `FetchContent`) |
| GoogleV4.ConteudoRule | request_google_version4.py:74-129 | content is blank after a `RequestException` (the only exception caught, line 127), a non-2xx status, a block phrase or a blocked site; otherwise it is the cleaned text |
| GoogleV4.FetchContent | request_google_version4.py:68-129 | one turn of the fetch loop records the content `Conteudo` gives |
| GoogleV4.Extracted | request_google_version4.py:65-131 | the list `extrair_conteudo_links` builds, one article per link in order (partners: `ExtractedEntries`, `ExtractArticles`) |
| GoogleV4.ExtractedEntries | request_google_version4.py:65-131 | one article per link, in input order, with the same link and the content of that link's request |
| GoogleV4.ExtractArticles | request_google_version4.py:65-131 | the loop builds exactly the extracted list |
| GoogleV4.ResultsHtml | request_google_version4.py:13-32 | a 200 reply gives its body; an exception or any other status gives no page |
| GoogleV4.Page | request_google_version4.py:151-165 | the page of the `k`-th request is the answer to offset `10*k` (partners: `FetchRound`, `HarvestSet`) |
| GoogleV4.GatheredGrows | request_google_version4.py:160 | the link set only grows from page to page |
| GoogleV4.AddedLinks | request_google_version4.py:157-160 | a page adds at most the number of links still missing, all http or https |
| GoogleV4.GatheredBound | request_google_version4.py:153-160 | the link set never exceeds `num_links` |
| GoogleV4.GatheredWeb | request_google_version4.py:153-160 | every gathered link is http or https |
| GoogleV4.FetchRound | request_google_version4.py:154-165 | one turn requests offset `10*k`, adds the parsed links, and adds nothing when the page did not arrive |
| GoogleV4.HarvestSet | request_google_version4.py:150-165 | the loop ends with enough links, after a page that did not arrive, or when the fuel is spent; every page before the last arrived |
| GoogleV4.HarvestLinks | request_google_version4.py:150-167 | the harvested list has no repeats, only http/https links, at most `num_links`, and the stop reasons of the loop |
| GoogleV4.EndlessHarvest | request_google_version4.py:153-165 | as written: against a server whose every page arrives with no result, every page is a page, the set stays empty and the loop condition holds after any number of pages |
| GoogleV4.ProperSubsetCard | request_google_version4.py:160 | helper: a proper subset is smaller |
| GoogleV4.HarvestUntilDry | request_google_version4.py:150-165 | corrected loop that also stops after a page adding no new link: ends with no page bound after at most `num_links + 1` pages, every page but the last grew the set, and it stops with enough links or after a page that added nothing |
| BingV1.ParseResults | request_bing_version1.py:64-86 | `[]` for an empty page; no repeats; at most `num_links`; the set of the first `num_links` passing `li.b_algo` anchors |
| BingV1.ParsedSetMembers | request_bing_version1.py:76-82 | every parsed link is http or https and is the first anchor of some result |
| BingV1.PageLinks | request_bing_version1.py:38-42 | the links page `k` yields: the parsed set of a 200 reply, none otherwise (partners: `PageLinksWeb`, `GatheredUnion`) |
| BingV1.Continues | request_bing_version1.py:36-58 | the loop goes on after page `k` exactly when it got a 200 reply with some links; an exception, another status or no links end it (partners: `RunMeaning`, `RunStopped`) |
| BingV1.GatheredUnion | request_bing_version1.py:20-45 | the gathered set is the union of the links of the pages processed |
| BingV1.PageLinksWeb | request_bing_version1.py:39-42 | a page yields only http/https links |
| BingV1.GatheredWeb | request_bing_version1.py:45 | every gathered link is http or https |
| BingV1.GatheredBound | request_bing_version1.py:40-45 | `k` pages give at most `k * num_links_por_pagina` links |
| BingV1.RunMeaning | request_bing_version1.py:32-58 | the loop is still going after `k` pages exactly when each of them was a 200 reply with links, and its set is then their union |
| BingV1.RunStopped | request_bing_version1.py:44-58 | the page that stops the loop failed, was not a 200 reply or had no links; it adds no links, and the set is the union of the pages before it |
| BingV1.FetchPage | request_bing_version1.py:33-58 | one turn requests offset `k*10`, adds the page's links and decides whether to go on |
| BingV1.HarvestSet | request_bing_version1.py:32-58 | at most `num_paginas` pages; the loop ends at the page count or right after the page that stopped it |
| BingV1.HarvestLinks | request_bing_version1.py:19-61 | at most `num_paginas` pages; every page before the last continued the loop; an early end is due to a stopping page; the result has no repeats and is the union of the pages' http/https links |
| BingV1.Requested | request_bing_version1.py:112-121 | no more requests than links |
| BingV1.RequestedMembers | request_bing_version1.py:112-121 | exactly the links that name no blocked site are requested |
| BingV1.RequestedStep | request_bing_version1.py:112-121 | a link is requested exactly when it is not skipped |
| BingV1.Entry | request_bing_version1.py:112-145 | what one link gives: nothing for a blocked site (not requested) or blocked content, a blank article after a `RequestException` or a non-2xx status, else the cleaned text (partner: `EntryRule`) |
| BingV1.EntryRule | request_bing_version1.py:112-145 | a blocked site gives nothing; a `RequestException` (the only exception caught, line 144) or a non-2xx status gives blank content; a 2xx reply gives its cleaned text unless that holds a block phrase, in which case nothing |
| BingV1.EntryLink | request_bing_version1.py:141-145 | an article keeps its link |
| BingV1.Extracted | request_bing_version1.py:89-147 | the list `extrair_conteudo_links` builds: the entries of the links, in order (partners: `ExtractedOrder`, `ExtractedMembers`, `ExtractArticles`) |
| BingV1.ExtractedOrder | request_bing_version1.py:112-147 | the links of the articles are a subsequence of the input, in order |
| BingV1.ExtractedShorter | request_bing_version1.py:112-147 | no more articles than links |
| BingV1.ExtractedMembers | request_bing_version1.py:112-147 | an article is in the output exactly when an input link gives it |
| BingV1.ExtractOne | request_bing_version1.py:113-145 | one turn gives the link's entry, and issues a request exactly when the site is not blocked |
| BingV1.ExtractArticles | request_bing_version1.py:89-147 | the loop builds the extracted list and requests exactly the links that are not blocked sites, in order |
| Noticias.ResultsHtml | extracao_noticias.py:76-92 | a 200 reply gives its body; an exception or any other status gives no page |
| Noticias.Candidates | extracao_noticias.py:99-106 | every anchor with an href is a candidate |
| Noticias.ParseResults | extracao_noticias.py:95-114 | `[]` for an empty page; no repeats; only http/https links; at most `num_links`; the set of the first `num_links` passing anchors |
| Noticias.ParsedSetMembers | extracao_noticias.py:103-110 | every parsed link is http or https and is an anchor of the page |
| Noticias.AllWeb | extracao_noticias.py:103-110 | when every anchor is http or https, all pass, in order |
| Noticias.FewLinksAllKept | extracao_noticias.py:103-112 | a page of at most `num_links` web anchors gives exactly its set of anchors |
| Noticias.Entry | extracao_noticias.py:119-142 | what one link gives: a blank article after an exception, nothing for a reply from a blocked site, else the reply's text (partners: `EntryRule`, `BlockedFailureKept`) |
| Noticias.EntryRule | extracao_noticias.py:119-142 | an exception gives a blank entry whatever the site; a reply, of any status, is dropped exactly when the link names a blocked site and otherwise kept with its text |
| Noticias.BlockedFailureKept | extracao_noticias.py:130-142 | a failed request to a blocked site is kept blank, a successful one is dropped |
| Noticias.Extracted | extracao_noticias.py:117-144 | the list `extrair_conteudo_links` builds: the entries of the links, in order (partners: `ExtractedOrder`, `ExtractedCount`, `ExtractArticles`) |
| Noticias.ExtractedOrder | extracao_noticias.py:117-144 | the links of the articles are a subsequence of the input, in order |
| Noticias.ExtractedCount | extracao_noticias.py:117-144 | the number of articles is the number of links minus the successful requests to blocked sites |
| Noticias.Dropped | extracao_noticias.py:130-138 | no more links are dropped than given |
| Noticias.ExtractedMembers | extracao_noticias.py:117-144 | an article is in the output exactly when an input link gives it |
| Noticias.ExtractOne | extracao_noticias.py:120-142 | one turn gives the link's entry |
| Noticias.ExtractArticles | extracao_noticias.py:117-144 | the loop builds exactly the extracted list |
| HandOff.Keys | extracao_noticias.py:333 | the keys of a dictionary, in insertion order |
| HandOff.Get | extracao_noticias.py:336 | `d.get(k)`: the value of the key, `None` when it is absent (partners: `PutGet`, `GetAt`) |
| HandOff.Put | extracao_noticias.py:301-310 | `d[k] = v`: a present key keeps its place and takes the new value, a new key goes last (partners: `PutGet`, `PutNew`, `PutOld`) |
| HandOff.PutGet | extracao_noticias.py:301-310 | after `d[k] = v`, `k` reads `v` and every other key reads as before |
| HandOff.PutNew | extracao_noticias.py:307-310 | a new key is appended last |
| HandOff.PutOld | extracao_noticias.py:301-310 | assigning to a present key keeps the order of the keys |
| HandOff.Decimal | extracao_noticias.py:307 | `str(n)` has at least one digit, two from ten on |
| HandOff.DecimalInjective | extracao_noticias.py:307 | different numbers are written differently |
| HandOff.LinkKeyInjective | extracao_noticias.py:307 | `link1`, `link2`, … are pairwise different keys |
| HandOff.LinkEntries | extracao_noticias.py:306-310 | article `i` is stored under `link{i+1}` with its link and its content as `texto` |
| HandOff.NextKeyIsNew | extracao_noticias.py:307 | the key of the next article is not yet in the dictionary |
| HandOff.HandOffOf | extracao_noticias.py:301-310 | the dictionary `main` writes: `Consulta`, `Data de Pesquisa`, then one `link{i}` record per article (partners: `BuildHandOff`, `RoundTrip`) |
| HandOff.BuildHandOff | extracao_noticias.py:301-310 | the loop builds the two header keys followed by `link1` … `linkN` |
| HandOff.HandOffKeysDistinct | extracao_noticias.py:301-310 | the keys are the two headers followed by the link keys, pairwise different |
| HandOff.ReadBack | extracao_noticias.py:320-336 | for each key after the first two, in order, the value `noticias[key]` gives (partner: `RoundTrip`) |
| HandOff.SliceFrom | extracao_noticias.py:333 | `s[2:]`: the elements after the first two, or none |
| HandOff.GetLinkEntry | extracao_noticias.py:333-336 | `noticias["link{i+1}"]` is article `i`'s record |
| HandOff.GetAt | extracao_noticias.py:335 | with distinct keys the `i`-th key finds the `i`-th value |
| HandOff.RoundTrip | extracao_noticias.py:301-336 | reading back through `keys()[2:]` gives every article in order, with `link` and `texto = conteudo`, and the headers give the query and the date |
| HandOff.Pesquisar | extracao_noticias.py:283-310 | no dictionary without a results page; otherwise the parsed links are the parser's set for twenty links and the dictionary holds their extracted articles |
| Aggregation.Riscos | extracao_noticias.py:259 | the risk column, one entry per row |
| Aggregation.Lowered | extracao_noticias.py:259 | `str.lower()` applied to each present risk, missing values kept missing |
| Aggregation.RiscoFinal | extracao_noticias.py:258-264 | `alto` exactly when some lowered risk is `alto`; `medio` exactly when none is `alto` and some is exactly `medio`; otherwise `baixo` |
| Aggregation.HasLowerAppend | extracao_noticias.py:259-262 | a value occurs in a concatenation exactly when it occurs in one part |
| Aggregation.RiscoFinalAppend | extracao_noticias.py:258-264 | the risk of two groups of rows is the stronger of their risks |
| Aggregation.HasLowerPermutation | extracao_noticias.py:259-262 | reordering the rows keeps every value present |
| Aggregation.RiscoFinalPermutation | extracao_noticias.py:258-264 | the final risk does not depend on the row order |
| Aggregation.Rank | extracao_noticias.py:347-349 | a category's place, missing values last |
| Aggregation.ToCategorical | extracao_noticias.py:347-352 | the conversion to the categorical keeps every row and turns risks outside `alto, médio, baixo` into missing values |
| Aggregation.TierRank | extracao_noticias.py:353 | a tier holds only rows of its rank |
| Aggregation.ConcatSorted | extracao_noticias.py:353 | two rank-ordered runs in adjacent rank ranges concatenate to one |
| Aggregation.TierSorted | extracao_noticias.py:353 | a tier is ordered by rank |
| Aggregation.TierStep | extracao_noticias.py:353 | one more row adds exactly itself to its own tier |
| Aggregation.Multiset4 | extracao_noticias.py:353 | the rows of four runs are those of each run |
| Aggregation.OneTierGrows | extracao_noticias.py:353 | adding a row to one tier adds it to the union of the tiers |
| Aggregation.TiersPermute | extracao_noticias.py:353 | the four tiers hold exactly the input rows |
| Aggregation.SortByRisk | extracao_noticias.py:347-353 | the categorical rows tier by tier: `alto`, `médio`, `baixo`, then missing (partners: `SortedByRisk`, `SortedResumos`) |
| Aggregation.SortedByRisk | extracao_noticias.py:347-353 | `sort_values("risco")` is a permutation of the converted rows ordered `alto`, `médio`, `baixo`, missing |
| Aggregation.SortedSameRows | extracao_noticias.py:347-353 | the sorted frame holds exactly the converted rows |
| Aggregation.SortedCategories | extracao_noticias.py:347-352 | after the conversion every risk is missing or one of the three categories |
| Aggregation.CategoryLower | extracao_noticias.py:348 | helper: the three categories are already lower-case |
| Aggregation.SortedLower | extracao_noticias.py:347-359 | after the sort a value is among the lowered risks exactly when it is a category some row holds |
| Aggregation.FinalRiskAsWritten | extracao_noticias.py:359 | `risco_final` applied to the frame after the categorical sort, as `main` calls it (partners: `NeverMedio`, `MedioLost`) |
| Aggregation.NeverMedio | extracao_noticias.py:347-359 | as `main` calls it, `risco_final` never returns `medio`, and returns `alto` exactly when some row says `alto` |
| Aggregation.MedioLost | extracao_noticias.py:262 | a single `médio` row gives `baixo` |
| Aggregation.RiscoFinalCorrigido | extracao_noticias.py:258-264 | the corrected rule: `alto` first, then `médio` (accented or not), else `baixo`; after the categorical conversion of `main` only the accented `médio` can occur, so the unaccented branch is dead in FinalRiskIsHighest |
| Aggregation.FinalRiskIsHighest | extracao_noticias.py:347-359 | the corrected final risk is the highest risk some row holds, `baixo` when none |
| Aggregation.Resumos | extracao_noticias.py:233 | `resumo.fillna("")`: one summary per row, blank for a missing one |
| Aggregation.ResumoInput | extracao_noticias.py:232-233 | the summaries, blank for a missing one, joined by blank lines (partners: `ResumoInputAppend`, `SortedResumos`) |
| Aggregation.ResumoInputAppend | extracao_noticias.py:233 | the summary input is the rows' summaries in frame order, separated by blank lines |
| Aggregation.ResumosAppend | extracao_noticias.py:233 | the summaries of two groups of rows are those of each group |
| Aggregation.CancelOne | extracao_noticias.py:353 | helper: one element cancels from both sides of a multiset equation |
| Aggregation.ResumosPermute | extracao_noticias.py:233 | rows that are a permutation of each other give summaries that are a permutation of each other |
| Aggregation.ResumosCategorical | extracao_noticias.py:347-352 | the categorical conversion leaves the summaries alone |
| Aggregation.SortedResumos | extracao_noticias.py:347-358 | the summaries joined for the model are those of the input rows, each once, taken tier by tier: all `alto` rows first, then `médio`, `baixo`, missing |
| Aggregation.Trimmed | extracao_noticias.py:386 | each part stripped |
| Aggregation.PerRow | extracao_noticias.py:385-387 | each row's crimes split on `,` and stripped |
| Aggregation.FlattenMembers | extracao_noticias.py:385-387 | a token of the flattened list comes from some row |
| Aggregation.StripToken | extracao_noticias.py:386 | a stripped part has no comma and no space at either end |
| Aggregation.RowTokensShape | extracao_noticias.py:386 | every token of a row has that shape |
| Aggregation.CrimeTokens | extracao_noticias.py:384-387 | `crimes_individuais`: every row's crimes split on `,` and stripped, row by row (partners: `CrimeTokensMembers`, `CrimeTokensShape`) |
| Aggregation.CrimeTokensMembers | extracao_noticias.py:384-387 | the tokens are exactly those of the rows' crimes |
| Aggregation.CrimeTokensShape | extracao_noticias.py:384-387 | every token has no comma and no space at either end |
| Aggregation.NamedCrimes | extracao_noticias.py:389 | a token is kept exactly when its lower-case form does not contain `nenhum` |
| Aggregation.Listed | extracao_noticias.py:388-391 | `sorted(crimes_unicos)` of the tokens not mentioning `nenhum` (partner: `ListedCrimes`) |
| Aggregation.ListedCrimes | extracao_noticias.py:384-391 | the listed crimes are strictly ascending, distinct, and exactly the row tokens that do not mention `nenhum` |
| Aggregation.CrimeDisplay | extracao_noticias.py:391-392 | the displayed text never starts with `,` or a space |
| Aggregation.NonEmpty | extracao_noticias.py:392 | the non-empty tokens |
| Aggregation.StripTokenJoin | extracao_noticias.py:391-392 | `lstrip(", ")` leaves a join that starts with a token unchanged |
| Aggregation.SameMembers | extracao_noticias.py:391 | two strictly ascending lists with the same members are equal |
| Aggregation.StripAfterEmpty | extracao_noticias.py:391-392 | a leading empty token's `, ` is stripped off |
| Aggregation.NoEmptyToken | extracao_noticias.py:391-392 | without an empty token the display is the join of the tokens |
| Aggregation.EmptyTokenFirst | extracao_noticias.py:391-392 | an empty token sorts first and its separator is stripped |
| Aggregation.DropEmptyHead | extracao_noticias.py:391-392 | the stripped join equals the join of the non-empty tokens |
| Aggregation.DisplayDropsEmpty | extracao_noticias.py:384-392 | the display is the sorted, duplicate-free, `, `-joined list of the non-empty crimes not mentioning `nenhum` |
| Aggregation.ListedWithin | extracao_noticias.py:384-391 | every crime listed for a frame is listed for one whose `crimes` values include the first's |
| Aggregation.DisplayOrderFree | extracao_noticias.py:384-392 | the display depends only on the set of crimes strings, not on their order or repeats |
| Aggregation.Crimes | extracao_noticias.py:384 | the crimes column, one entry per row |
| Aggregation.DisplayAfterSort | extracao_noticias.py:353-392 | sorting the frame by risk does not change the displayed crimes |

## Left out

- Network I/O (`requests.get`, `Session`, headers, TLS settings, timeouts, `time.sleep`) is not modelled: the replies are the parameters `serve` and `fetch`.
- BeautifulSoup and `get_text` are not modelled: a page is given as the hrefs its markup offers, and an article body as its already-joined text.
- The language-model calls are not modelled. This covers `Extracao` and `extrai_json` (extracao_noticias.py:147-229) and the model call of `extrai_resumo_final` (extracao_noticias.py:235-255). The classification loop of `main` that appends one row per article (extracao_noticias.py:337-341) is not modelled either, so the aggregation takes the classified rows as input. Only the read-back it iterates over (`HandOff.RoundTrip`) is modelled.
- The Streamlit UI, AgGrid, the download button, `highlight_last`, CSS and secrets, the JSON/CSV/Excel writes, directory creation, logging and printing are not modelled, because they are output only.
- `datetime.now()` is not modelled: the date is a parameter of `HandOff.BuildHandOff`.
- Url.RedirectTarget reads the raw `q` value: the percent-decoding and `+` handling of `parse_qs` are not modelled. The round-trip lemmas (Url.RedirectRoundTrip, GoogleV4.CandidateUnwraps) therefore take a target without `%` and `+`.
- Url.Scheme and Url.IsWebUrl leave out three details of `urlsplit`. It strips leading C0 control characters and spaces. It removes tab, CR and LF anywhere in the URL, not only at its ends. It raises `ValueError` on a malformed network location, such as the unbalanced bracket of `http://[x`, to which the model gives the scheme `http`. In request_bing_version1.py the parser runs inside the `try` of lines 36-58, so that raise would end the page loop and lose the page's links. At request_google_version4.py:56 and extracao_noticias.py:107 it would propagate out of `main`.
- GoogleV4.Conteudo, GoogleV4.ConteudoRule, BingV1.Entry and BingV1.EntryRule: `Raised` stands for a `requests.exceptions.RequestException`, the only exception that the article loops of request_google_version4.py (line 127) and request_bing_version1.py (line 144) catch. Any other exception raised inside those `try` blocks is not modelled. One example is a parser error from `BeautifulSoup` at request_google_version4.py:75 or request_bing_version1.py:125. In the source, such an exception propagates out of `extrair_conteudo_links` and ends the run with no article list. In extracao_noticias.py (line 140) and in the results-page fetches (request_google_version4.py:30, request_bing_version1.py:56), `except Exception` catches everything, so there `Raised` is any exception.
- Text.Lower lowers ASCII and Latin-1 capitals only. This is enough for the risk values and for `nenhum`, but it is not the whole Unicode table of `str.lower`.
- GoogleV4.HarvestLinks: the source loop keeps requesting while pages arrive but add nothing, which can run forever (see Findings). The model of the loop as written, HarvestSet, bounds it by a page budget, `maxPages`, and its contracts say the loop stopped for enough links, a missing page, or the budget. The corrected loop, HarvestUntilDry, needs no budget.
- The order of pandas' `sort_values` within one risk tier is not modelled (its default quicksort is not stable). The model keeps input order within a tier. Aggregation.SortedByRisk states only the permutation and the rank order. The final risk and the crime list are proved independent of the order within a tier. The summary input is not: Aggregation.SortedResumos fixes which summaries come in which tier, but the order of the summaries within a tier is unspecified in the source, and the model's input order is one possibility.
- Missing (NaN) crimes values are not modelled: they would raise in `split`, and crimes are plain strings here. Missing risks and summaries are modelled (`Option`).
- HandOff.Pesquisar returns no dictionary when the results page is missing or empty. The source leaves `json_saida` unbound in that case, and `main` then fails at extracao_noticias.py:320.
- The request URLs are not modelled beyond what the contracts need. Google's `start` offset and Bing's `first`/`count` are fields of the request, but the remaining query parameters are not.

## Findings

| source | as written | input that shows it | evidently intended | confidence | as-written member | corrected member |
|---|---|---|---|---|---|---|
| extracao_noticias.py:262 | `risco_final` tests for `"medio"`, but `main` passes it the frame after the conversion to the categorical of `alto, médio, baixo` (348-352), which holds only the accented spelling | one classified row with risco `"médio"` gives `"baixo"` | the middle level `médio` of the rubric (187) and of the categories (348) yields `médio` | not executed | Aggregation.MedioLost | Aggregation.FinalRiskIsHighest |
| request_google_version4.py:153-165 | the loop ends only when `num_links` links are known or a page does not arrive; a page that arrives but adds no new link sends it on to the next offset | a server that answers every request with status 200 and a page without `div.g` results, with `num_links = 100`: the set stays empty and the loop never ends | stop also after a page that adds no new link, so that the loop ends after at most `num_links + 1` pages | not executed | GoogleV4.EndlessHarvest | GoogleV4.HarvestUntilDry |
