/**
 * `limpar_conteudo`: the clean-up applied to the text of a fetched article
 * (request_google_version4.py and request_bing_version1.py carry the same
 * definition).  Backslashes and line feeds are deleted, carriage returns
 * become spaces, runs of spaces shrink to one and the ends are stripped.
 */
module Sanitize {
  import opened Text

  /** `s.replace(c, "")` for a one-character pattern. */
  function Remove(s: string, c: char): (r: string)
    ensures |r| <= |s|
    decreases |s|
  {
    if s == [] then [] else (if s[0] == c then [] else [s[0]]) + Remove(s[1..], c)
  }

  /** `s.replace(c, d)` for one-character patterns. */
  function Replace(s: string, c: char, d: char): (r: string)
    ensures |r| == |s|
    ensures forall i :: 0 <= i < |s| ==> r[i] == if s[i] == c then d else s[i]
  {
    seq(|s|, i requires 0 <= i < |s| => if s[i] == c then d else s[i])
  }

  predicate NoDoubleSpace(s: string) {
    forall i :: 0 <= i < |s| - 1 ==> !(s[i] == ' ' && s[i + 1] == ' ')
  }

  /** `re.sub(" +", " ", s)`: every maximal run of spaces becomes one space. */
  function CollapseSpaces(s: string): (r: string)
    ensures NoDoubleSpace(r)
    ensures forall x :: x in r ==> x in s
    ensures s != [] ==> r != [] && r[0] == s[0]
    decreases |s|
  {
    if s == [] then []
    else if |s| > 1 && s[0] == ' ' && s[1] == ' ' then CollapseSpaces(s[1..])
    else [s[0]] + CollapseSpaces(s[1..])
  }

  /** The collapse removes spaces and nothing else: with every space deleted, input and output agree. */
  lemma {:induction false} CollapseOnlySpaces(s: string)
    ensures Remove(CollapseSpaces(s), ' ') == Remove(s, ' ')
    decreases |s|
  {
    if s != [] {
      CollapseOnlySpaces(s[1..]);
      if !(|s| > 1 && s[0] == ' ' && s[1] == ' ') {
        var rest := CollapseSpaces(s[1..]);
        assert ([s[0]] + rest)[1..] == rest;
      }
    }
  }

  /** `limpar_conteudo(conteudo)`. */
  function LimparConteudo(conteudo: string): (r: string)
    ensures IsClean(r)
  {
    var semQuebras := Replace(Remove(Remove(conteudo, '\\'), '\n'), '\r', ' ');
    NoBreaks(conteudo);
    var c := CollapseSpaces(semQuebras);
    StripClean(c);
    Strip(c)
  }

  /** Stripping a text without breaks or double spaces leaves a clean one. */
  lemma StripClean(c: string)
    requires '\\' !in c && '\n' !in c && '\r' !in c && NoDoubleSpace(c)
    ensures IsClean(Strip(c))
  {
    SliceKeepsNoDoubleSpace(c, StripLeft(c), Strip(c));
  }

  /** Deleting a character leaves none of it, and brings in no other. */
  lemma {:induction false} RemoveDeletes(s: string, c: char, d: char)
    ensures c !in Remove(s, c)
    ensures d !in s ==> d !in Remove(s, c)
    decreases |s|
  {
    if s != [] {
      RemoveDeletes(s[1..], c, d);
    }
  }

  lemma NoBreaks(conteudo: string)
    ensures var s := Replace(Remove(Remove(conteudo, '\\'), '\n'), '\r', ' ');
      '\\' !in s && '\n' !in s && '\r' !in s
  {
    var a := Remove(conteudo, '\\');
    var b := Remove(a, '\n');
    RemoveDeletes(conteudo, '\\', '\\');
    RemoveDeletes(a, '\n', '\\');
    var s := Replace(b, '\r', ' ');
    forall i | 0 <= i < |s| ensures s[i] != '\\' && s[i] != '\n' && s[i] != '\r' {
      assert b[i] in b;
    }
  }

  /** What a cleaned text looks like. */
  predicate IsClean(s: string) {
    && '\\' !in s && '\n' !in s && '\r' !in s
    && NoDoubleSpace(s)
    && (s == [] || (!IsSpace(s[0]) && !IsSpace(s[|s| - 1])))
  }

  lemma SliceKeepsNoDoubleSpace(c: string, l: string, r: string)
    requires NoDoubleSpace(c)
    requires |l| <= |c| && l == c[|c| - |l|..]
    requires |r| <= |l| && r == l[..|r|]
    ensures NoDoubleSpace(r)
    ensures forall x :: x in r ==> x in c
  {
    var off := |c| - |l|;
    forall i | 0 <= i < |r| - 1 ensures !(r[i] == ' ' && r[i + 1] == ' ') {
      assert r[i] == c[off + i] && r[i + 1] == c[off + i + 1];
    }
    forall x | x in r ensures x in c {
      var i :| 0 <= i < |r| && r[i] == x;
      assert c[off + i] == x;
    }
  }

  lemma {:induction false} RemoveAbsent(s: string, c: char)
    requires c !in s
    ensures Remove(s, c) == s
  {
    if s != [] {
      RemoveAbsent(s[1..], c);
      assert s == [s[0]] + s[1..];
    }
  }

  lemma {:induction false} CollapseNoDouble(s: string)
    requires NoDoubleSpace(s)
    ensures CollapseSpaces(s) == s
  {
    if s != [] {
      CollapseNoDouble(s[1..]);
      assert s == [s[0]] + s[1..];
    }
  }

  /**
   * A lone space between two characters other than spaces survives the
   * collapse: only runs of two or more spaces shrink.
   */
  lemma {:induction false} CollapseLoneSpace(a: string, b: string)
    requires a != [] && a[|a| - 1] != ' '
    requires b == [] || b[0] != ' '
    ensures CollapseSpaces(a + " " + b) == CollapseSpaces(a) + " " + CollapseSpaces(b)
    decreases |a|
  {
    var s := a + " " + b;
    if |a| == 1 {
      assert s[1..] == " " + b;
      assert (" " + b)[1..] == b;
    } else {
      assert s[0] == a[0] && s[1] == a[1];
      assert s[1..] == a[1..] + " " + b;
      CollapseLoneSpace(a[1..], b);
    }
  }

  /** `n` spaces in a row. */
  function Spaces(n: nat): string
    decreases n
  {
    if n == 0 then [] else " " + Spaces(n - 1)
  }

  /** A run of one or more spaces at the front shrinks to exactly one space. */
  lemma {:induction false} CollapseLeadingRun(n: nat, b: string)
    requires n >= 1
    requires b == [] || b[0] != ' '
    ensures CollapseSpaces(Spaces(n) + b) == " " + CollapseSpaces(b)
    decreases n
  {
    var s := Spaces(n) + b;
    if n == 1 {
      assert s == " " + b && s[1..] == b;
    } else {
      assert Spaces(n - 1) == " " + Spaces(n - 2);
      assert s[0] == ' ' && s[1] == ' ';
      assert s[1..] == Spaces(n - 1) + b;
      CollapseLeadingRun(n - 1, b);
    }
  }

  /**
   * Between two characters other than spaces, a run of one or more spaces
   * becomes exactly one space: `re.sub(" +", " ", s)` neither drops the run
   * nor keeps more of it.
   */
  lemma {:induction false} CollapseRun(a: string, n: nat, b: string)
    requires a != [] && a[|a| - 1] != ' '
    requires n >= 1
    requires b == [] || b[0] != ' '
    ensures CollapseSpaces(a + Spaces(n) + b) == CollapseSpaces(a) + " " + CollapseSpaces(b)
    decreases |a|
  {
    var s := a + Spaces(n) + b;
    if |a| == 1 {
      assert s[1..] == Spaces(n) + b;
      CollapseLeadingRun(n, b);
    } else {
      assert s[0] == a[0] && s[1] == a[1];
      assert s[1..] == a[1..] + Spaces(n) + b;
      CollapseRun(a[1..], n, b);
    }
  }

  /** A text is left as it is by the clean-up exactly when it is already clean. */
  lemma CleanIffFixed(s: string)
    ensures IsClean(s) <==> LimparConteudo(s) == s
  {
    if IsClean(s) {
      RemoveAbsent(s, '\\');
      RemoveAbsent(s, '\n');
      assert Replace(s, '\r', ' ') == s;
      CollapseNoDouble(s);
    }
  }

  /** `limpar_conteudo` is idempotent. */
  lemma Idempotent(s: string)
    ensures LimparConteudo(LimparConteudo(s)) == LimparConteudo(s)
  {
    CleanIffFixed(LimparConteudo(s));
  }

  lemma {:induction false} RemoveAppend(a: string, b: string, c: char)
    ensures Remove(a + b, c) == Remove(a, c) + Remove(b, c)
  {
    if a == [] {
      assert a + b == b;
    } else {
      var h := if a[0] == c then [] else [a[0]];
      assert (a + b)[0] == a[0] && (a + b)[1..] == a[1..] + b;
      calc {
        Remove(a + b, c);
        h + Remove(a[1..] + b, c);
        { RemoveAppend(a[1..], b, c); }
        h + (Remove(a[1..], c) + Remove(b, c));
        (h + Remove(a[1..], c)) + Remove(b, c);
        Remove(a, c) + Remove(b, c);
      }
    }
  }

  lemma DropLineFeed(x: string, y: string)
    requires '\n' !in x && '\n' !in y
    ensures Remove(x + "\r\n" + y, '\n') == x + "\r" + y
  {
    var xr := x + ['\r'];
    var ny := ['\n'] + y;
    assert x + "\r\n" + y == xr + ny;
    RemoveAppend(xr, ny, '\n');
    RemoveAbsent(xr, '\n');
    assert Remove(ny, '\n') == Remove(y, '\n');
    RemoveAbsent(y, '\n');
    assert x + "\r" + y == xr + y;
  }

  lemma SpaceBetween(x: string, y: string)
    requires IsClean(x) && IsClean(y) && x != [] && y != []
    ensures NoDoubleSpace(x + " " + y)
  {
    var c := x + " " + y;
    forall i | 0 <= i < |c| - 1 ensures !(c[i] == ' ' && c[i + 1] == ' ') {
      if i < |x| - 1 {
        assert c[i] == x[i] && c[i + 1] == x[i + 1];
      } else if i == |x| - 1 {
        assert c[i] == x[|x| - 1];
      } else if i == |x| {
        assert c[i + 1] == y[0];
      } else {
        assert c[i] == y[i - |x| - 1] && c[i + 1] == y[i - |x|];
      }
    }
  }

  /**
   * Two clean lines joined by a CR LF pair come out joined by one space:
   * the carriage return becomes the space and the line feed disappears.
   */
  lemma LineBreakJoins(x: string, y: string)
    requires IsClean(x) && IsClean(y) && x != [] && y != []
    ensures LimparConteudo(x + "\r\n" + y) == x + " " + y
  {
    var s := x + "\r\n" + y;
    var b := x + "\r" + y;
    var c := x + " " + y;
    assert Replace(b, '\r', ' ') == c;
    assert c[0] == x[0] && c[|c| - 1] == y[|y| - 1];
    RemoveAbsent(s, '\\');
    DropLineFeed(x, y);
    SpaceBetween(x, y);
    CollapseNoDouble(c);
    assert StripLeft(c) == c;
    assert StripRight(c) == c;
  }

  /** The characters a reader sees: neither white space nor a backslash. */
  function Visible(s: string): (r: string)
    decreases |s|
  {
    if s == [] then []
    else (if IsSpace(s[0]) || s[0] == '\\' then [] else [s[0]]) + Visible(s[1..])
  }

  lemma {:induction false} VisibleAppend(a: string, b: string)
    ensures Visible(a + b) == Visible(a) + Visible(b)
  {
    if a == [] {
      assert a + b == b;
    } else {
      var h := if IsSpace(a[0]) || a[0] == '\\' then [] else [a[0]];
      assert (a + b)[0] == a[0] && (a + b)[1..] == a[1..] + b;
      calc {
        Visible(a + b);
        h + Visible(a[1..] + b);
        { VisibleAppend(a[1..], b); }
        h + (Visible(a[1..]) + Visible(b));
        (h + Visible(a[1..])) + Visible(b);
        Visible(a) + Visible(b);
      }
    }
  }

  lemma {:induction false} VisibleRemove(s: string, c: char)
    requires IsSpace(c) || c == '\\'
    ensures Visible(Remove(s, c)) == Visible(s)
  {
    if s != [] {
      VisibleRemove(s[1..], c);
      VisibleAppend(if s[0] == c then [] else [s[0]], Remove(s[1..], c));
    }
  }

  lemma {:induction false} VisibleReplace(s: string, c: char, d: char)
    requires IsSpace(c) && IsSpace(d)
    ensures Visible(Replace(s, c, d)) == Visible(s)
  {
    if s != [] {
      VisibleReplace(s[1..], c, d);
      assert Replace(s, c, d) == [Replace(s, c, d)[0]] + Replace(s[1..], c, d);
    }
  }

  lemma {:induction false} VisibleCollapse(s: string)
    ensures Visible(CollapseSpaces(s)) == Visible(s)
  {
    if s != [] {
      VisibleCollapse(s[1..]);
      if !(|s| > 1 && s[0] == ' ' && s[1] == ' ') {
        VisibleAppend([s[0]], CollapseSpaces(s[1..]));
      }
    }
  }

  lemma {:induction false} VisibleStripLeft(s: string)
    ensures Visible(StripLeft(s)) == Visible(s)
  {
    if s != [] && IsSpace(s[0]) {
      VisibleStripLeft(s[1..]);
    }
  }

  lemma {:induction false} VisibleStripRight(s: string)
    ensures Visible(StripRight(s)) == Visible(s)
  {
    if s != [] && IsSpace(s[|s| - 1]) {
      var init := s[..|s| - 1];
      VisibleStripRight(init);
      assert s == init + [s[|s| - 1]];
      VisibleAppend(init, [s[|s| - 1]]);
    }
  }

  /**
   * The clean-up loses no visible character: only white space and
   * backslashes are dropped, and the order of the rest is kept.
   */
  lemma KeepsVisible(conteudo: string)
    ensures Visible(LimparConteudo(conteudo)) == Visible(conteudo)
  {
    var a := Remove(conteudo, '\\');
    var b := Remove(a, '\n');
    var c := Replace(b, '\r', ' ');
    VisibleRemove(conteudo, '\\');
    VisibleRemove(a, '\n');
    VisibleReplace(b, '\r', ' ');
    VisibleCollapse(c);
    VisibleStripLeft(CollapseSpaces(c));
    VisibleStripRight(StripLeft(CollapseSpaces(c)));
  }
}
