/**
 * The two pieces of `urllib.parse` the link parsers rely on:
 * `urlparse(u).scheme` and `parse_qs(urlparse(u).query).get("q", [None])[0]`.
 */
module Url {
  import opened Wrappers
  import opened Text

  predicate IsAsciiAlpha(c: char) {
    'a' <= c <= 'z' || 'A' <= c <= 'Z'
  }

  /** Characters `urllib.parse` accepts in a scheme. */
  predicate IsSchemeChar(c: char) {
    IsAsciiAlpha(c) || '0' <= c <= '9' || c == '+' || c == '-' || c == '.'
  }

  /** `s.find(c)`: the first index of `c`, or -1. */
  function Find(s: string, c: char): (r: int)
    ensures -1 <= r < |s|
    ensures r >= 0 ==> s[r] == c && c !in s[..r]
    ensures r < 0 ==> c !in s
    decreases |s|
  {
    if s == [] then -1
    else if s[0] == c then 0
    else
      var k := Find(s[1..], c);
      if k < 0 then -1
      else
        assert s[..k + 1] == [s[0]] + s[1..][..k];
        k + 1
  }

  /** `Find` gives the first occurrence. */
  lemma {:induction false} FindFirst(s: string, c: char, i: nat)
    requires i < |s| && s[i] == c && c !in s[..i]
    ensures Find(s, c) == i
  {
    if i > 0 {
      assert s[1..][..i - 1] == s[1..i];
      assert c !in s[1..][..i - 1];
      FindFirst(s[1..], c, i - 1);
    }
  }

  /**
   * The scan `urllib.parse.urlsplit` makes for a scheme: the text before
   * the first ':', lower-cased, when every character of it is a scheme
   * character; `None` when there is no ':' or some character before it is
   * not a scheme character.
   */
  function SchemePart(u: string): Option<string>
    decreases |u|
  {
    if u == [] then None
    else if u[0] == ':' then Some([])
    else if !IsSchemeChar(u[0]) then None
    else
      match SchemePart(u[1..])
      case None => None
      case Some(rest) => Some([LowerChar(u[0])] + rest)
  }

  /**
   * `urlparse(u).scheme`: the scanned scheme when the URL starts with an
   * ASCII letter (so the scheme is not empty), otherwise empty.
   */
  function Scheme(u: string): string {
    if u != [] && IsAsciiAlpha(u[0]) && SchemePart(u).Some? then SchemePart(u).value else ""
  }

  /** `urlparse(u).scheme in ["http", "https"]`. */
  predicate IsWebUrl(u: string) {
    Scheme(u) == "http" || Scheme(u) == "https"
  }

  /** Independent reading: the URL starts, ignoring case, with "http:" or "https:". */
  predicate HasWebPrefix(u: string) {
    (|u| >= 5 && Lower(u[..5]) == "http:") || (|u| >= 6 && Lower(u[..6]) == "https:")
  }

  /** A scanned scheme is the lower-cased text before a ':' made only of scheme characters. */
  lemma {:induction false} SchemePartFound(u: string)
    requires SchemePart(u).Some?
    ensures var s := SchemePart(u).value;
      |s| < |u| && u[|s|] == ':' && Lower(u[..|s|]) == s &&
      forall k :: 0 <= k < |s| ==> IsSchemeChar(u[k])
    decreases |u|
  {
    if u[0] != ':' {
      SchemePartFound(u[1..]);
      var rest := SchemePart(u[1..]).value;
      assert u[..|rest| + 1] == [u[0]] + u[1..][..|rest|];
    }
  }

  /** Scheme characters up to a ':' are scanned as the scheme. */
  lemma {:induction false} SchemePartOf(u: string, i: nat)
    requires i < |u| && u[i] == ':'
    requires forall k :: 0 <= k < i ==> IsSchemeChar(u[k])
    ensures SchemePart(u) == Some(Lower(u[..i]))
    decreases i
  {
    if i > 0 {
      assert IsSchemeChar(u[0]);
      assert forall k :: 0 <= k < i - 1 ==> u[1..][k] == u[k + 1];
      SchemePartOf(u[1..], i - 1);
      assert u[..i] == [u[0]] + u[1..][..i - 1];
      assert Lower(u[..i]) == [LowerChar(u[0])] + Lower(u[1..][..i - 1]);
    }
  }

  lemma LowerToAsciiLetter(c: char, d: char)
    requires 'a' <= d <= 'z' && LowerChar(c) == d
    ensures c == d || c as int == d as int - 32
  {
  }

  /** A lower-cased prefix of ASCII letters comes from ASCII letters. */
  lemma LowerLetters(u: string, w: string)
    requires |w| <= |u| && Lower(u[..|w|]) == w
    requires forall k :: 0 <= k < |w| ==> 'a' <= w[k] <= 'z'
    ensures forall k :: 0 <= k < |w| ==> IsAsciiAlpha(u[k]) && IsSchemeChar(u[k])
  {
    forall k | 0 <= k < |w|
      ensures IsAsciiAlpha(u[k]) && IsSchemeChar(u[k])
    {
      assert LowerChar(u[..|w|][k]) == w[k];
      LowerToAsciiLetter(u[k], w[k]);
    }
  }

  /** The scheme test accepts exactly the URLs that begin "http:" or "https:" in any case. */
  lemma WebUrlIffPrefix(u: string)
    ensures IsWebUrl(u) <==> HasWebPrefix(u)
  {
    if IsWebUrl(u) {
      WebUrlHasPrefix(u);
    }
    if HasWebPrefix(u) {
      PrefixIsWebUrl(u);
    }
  }

  lemma WebUrlHasPrefix(u: string)
    requires IsWebUrl(u)
    ensures HasWebPrefix(u)
  {
    SchemePartFound(u);
    var i := |SchemePart(u).value|;
    assert u[..i + 1] == u[..i] + [u[i]];
    assert Lower(u[..i + 1]) == Lower(u[..i]) + [LowerChar(u[i])];
  }

  /** A URL whose first `|w| + 1` characters lower to `w` and ':' has scheme `w`, for a word `w` of ASCII letters. */
  lemma SchemeOfWord(u: string, w: string)
    requires w != [] && |w| < |u| && Lower(u[..|w| + 1]) == w + ":"
    requires forall k :: 0 <= k < |w| ==> 'a' <= w[k] <= 'z'
    ensures Scheme(u) == w
  {
    var i := |w|;
    assert u[..i] == u[..i + 1][..i];
    assert Lower(u[..i]) == w;
    assert LowerChar(u[..i + 1][i]) == ':';
    LowerLetters(u, w);
    SchemePartOf(u, i);
  }

  lemma PrefixIsWebUrl(u: string)
    requires HasWebPrefix(u)
    ensures IsWebUrl(u)
  {
    if |u| >= 5 && Lower(u[..5]) == "http:" {
      SchemeOfWord(u, "http");
    } else {
      SchemeOfWord(u, "https");
    }
  }

  /** `urlparse(u).query`: after the first '?' of the part before the first '#'. */
  function Query(u: string): string {
    var h := Find(u, '#');
    var v := if h < 0 then u else u[..h];
    var q := Find(v, '?');
    if q < 0 then "" else v[q + 1..]
  }

  /**
   * `parse_qs(query).get(name, [None])[0]` over the '&'-separated fields:
   * the value of the first `name=value` field whose value is not blank
   * (`parse_qs` drops blank values and fields without '=').
   */
  function QueryValue(fields: seq<string>, name: string): Option<string>
    decreases |fields|
  {
    if fields == [] then None
    else if name + "=" <= fields[0] && |fields[0]| > |name| + 1 then Some(fields[0][|name| + 1..])
    else QueryValue(fields[1..], name)
  }

  /** The target of a `/url?q=` redirect link, when its `q` parameter is present. */
  function RedirectTarget(href: string): Option<string> {
    QueryValue(Split(Query(href), '&'), "q")
  }

  lemma SplitWithout(s: string, sep: char)
    requires sep !in s
    ensures Split(s, sep) == [s]
  {
    if s != [] {
      SplitWithout(s[1..], sep);
      assert s == [s[0]] + s[1..];
    }
  }

  /** Splitting at the first separator. */
  lemma {:induction false} SplitAtFirst(a: string, b: string, sep: char)
    requires sep !in a
    ensures Split(a + [sep] + b, sep) == [a] + Split(b, sep)
    decreases |a|
  {
    if a == [] {
      assert a + [sep] + b == [sep] + b;
    } else {
      SplitAtFirst(a[1..], b, sep);
      var s := a + [sep] + b;
      assert s[0] == a[0] && s[0] != sep;
      assert s[1..] == a[1..] + [sep] + b;
      var rest := Split(s[1..], sep);
      assert rest[0] == a[1..] && rest[1..] == Split(b, sep);
      assert [a[0]] + a[1..] == a;
    }
  }

  /** The query of a path-relative `/url?...` link is everything after the '?'. */
  lemma RedirectQuery(rest: string)
    requires '#' !in rest
    ensures Query("/url?" + rest) == rest
  {
    var href := "/url?" + rest;
    assert '#' !in href;
    assert href[..4] == "/url";
    FindFirst(href, '?', 4);
  }

  /** A `/url?...` link is unwrapped by reading the `q` field of what follows the '?'. */
  lemma RedirectFields(rest: string)
    requires '#' !in rest
    ensures RedirectTarget("/url?" + rest) == QueryValue(Split(rest, '&'), "q")
  {
    RedirectQuery(rest);
  }

  /** A field too short to hold a value for `name` is passed over. */
  lemma QueryValueSkip(field: string, others: seq<string>, name: string)
    requires |field| <= |name| + 1
    ensures QueryValue([field] + others, name) == QueryValue(others, name)
  {
    assert ([field] + others)[1..] == others;
  }

  lemma QueryValueFirst(target: string, others: seq<string>)
    requires target != []
    ensures QueryValue(["q=" + target] + others, "q") == Some(target)
  {
    var field := "q=" + target;
    assert "q=" <= field && field[2..] == target;
  }

  /**
   * Wrapping a URL as `/url?q=<target>`, with or without further
   * parameters, and unwrapping it gives the URL back.  The target holds no
   * `%` and no `+`, which `parse_qs` would decode, so the raw value read
   * here is also the value the program reads.
   */
  lemma RedirectRoundTrip(target: string, more: string)
    requires target != [] && '&' !in target && '#' !in target && '%' !in target && '+' !in target && '#' !in more
    ensures RedirectTarget("/url?q=" + target) == Some(target)
    ensures RedirectTarget("/url?q=" + target + "&" + more) == Some(target)
  {
    RoundTripBare(target);
    RoundTripWithMore(target, more);
  }

  lemma RoundTripBare(target: string)
    requires target != [] && '&' !in target && '#' !in target && '%' !in target && '+' !in target
    ensures RedirectTarget("/url?q=" + target) == Some(target)
  {
    var field := "q=" + target;
    RedirectFields(field);
    assert "/url?q=" + target == "/url?" + field;
    SplitWithout(field, '&');
    QueryValueFirst(target, []);
    assert [field] + [] == [field];
  }

  lemma RoundTripWithMore(target: string, more: string)
    requires target != [] && '&' !in target && '#' !in target && '%' !in target && '+' !in target && '#' !in more
    ensures RedirectTarget("/url?q=" + target + "&" + more) == Some(target)
  {
    var field := "q=" + target;
    assert "/url?q=" + target + "&" + more == "/url?" + (field + "&" + more);
    assert '#' !in field && '&' !in field by {
      assert forall k :: 2 <= k < |field| ==> field[k] == target[k - 2];
    }
    RedirectSplit(field, more);
    QueryValueFirst(target, Split(more, '&'));
  }

  /** The first field of a redirect query is read before the rest. */
  lemma RedirectSplit(field: string, more: string)
    requires '#' !in field && '&' !in field && '#' !in more
    ensures RedirectTarget("/url?" + (field + "&" + more)) == QueryValue([field] + Split(more, '&'), "q")
  {
    var rest := field + "&" + more;
    assert '#' !in rest;
    RedirectFields(rest);
    SplitAtFirst(field, more, '&');
  }

  /**
   * A blank `q` value is no target (`parse_qs` drops blank values): the
   * search falls through to a later `q` field, if any.
   */
  lemma RedirectBlank(more: string)
    requires '#' !in more
    ensures RedirectTarget("/url?q=") == None
    ensures RedirectTarget("/url?q=" + "&" + more) == QueryValue(Split(more, '&'), "q")
  {
    BlankAlone();
    BlankThenMore(more);
  }

  lemma BlankAlone()
    ensures RedirectTarget("/url?q=") == None
  {
    var field := "q=";
    RedirectFields(field);
    assert "/url?q=" == "/url?" + field;
    SplitWithout(field, '&');
    assert QueryValue([field], "q") == QueryValue([], "q");
  }

  lemma BlankThenMore(more: string)
    requires '#' !in more
    ensures RedirectTarget("/url?q=" + "&" + more) == QueryValue(Split(more, '&'), "q")
  {
    var field := "q=";
    assert "/url?q=" + "&" + more == "/url?" + (field + "&" + more);
    RedirectSplit(field, more);
    QueryValueSkip(field, Split(more, '&'), "q");
  }
}
