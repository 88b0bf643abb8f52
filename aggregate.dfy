/**
 * extracao_noticias.py, the spreadsheet half of `main`: the overall risk
 * (`risco_final`), the rows sorted by the ordered risk categories, the
 * text handed to the summary model, and the list of crimes shown on the
 * page.  The classifications themselves come from a language model and
 * are inputs here.
 */
module Aggregation {
  import opened Wrappers
  import opened Text
  import opened StringOrder

  /** One row of the data frame built from the classifications; `None` is a missing value. */
  datatype Row = Row(crimes: string, risco: Option<string>, resumo: Option<string>, link: Option<string>)

  /** The `risco` column. */
  function Riscos(rows: seq<Row>): (r: seq<Option<string>>)
    ensures |r| == |rows| && forall i :: 0 <= i < |rows| ==> r[i] == rows[i].risco
  {
    seq(|rows|, i requires 0 <= i < |rows| => rows[i].risco)
  }

  // ---------------------------------------------------------------- risco_final

  /** `.str.lower()` on a column: missing values stay missing. */
  function Lowered(riscos: seq<Option<string>>): (r: seq<Option<string>>)
    ensures |r| == |riscos|
    ensures forall i :: 0 <= i < |riscos| ==> r[i] == if riscos[i].Some? then Some(Lower(riscos[i].value)) else None
  {
    seq(|riscos|, i requires 0 <= i < |riscos| => if riscos[i].Some? then Some(Lower(riscos[i].value)) else None)
  }

  /** Some value of the column, lower-cased, is `v`. */
  predicate HasLower(riscos: seq<Option<string>>, v: string) {
    exists i :: 0 <= i < |riscos| && riscos[i].Some? && Lower(riscos[i].value) == v
  }

  /**
   * `risco_final(df)`: "alto" when some lower-cased value is "alto", else
   * "medio" when some lower-cased value is exactly "medio", else "baixo".
   */
  function RiscoFinal(riscos: seq<Option<string>>): (r: string)
    ensures r == "alto" || r == "medio" || r == "baixo"
    ensures r == "alto" <==> HasLower(riscos, "alto")
    ensures r == "medio" <==> !HasLower(riscos, "alto") && HasLower(riscos, "medio")
  {
    var lowered := Lowered(riscos);
    if Some("alto") in lowered then "alto"
    else if Some("medio") in lowered then "medio"
    else "baixo"
  }

  /** How strong an overall risk is: alto over medio over baixo. */
  function Strength(r: string): nat {
    if r == "alto" then 2 else if r == "medio" then 1 else 0
  }

  function Stronger(a: string, b: string): string {
    if Strength(a) >= Strength(b) then a else b
  }

  lemma HasLowerAppend(a: seq<Option<string>>, b: seq<Option<string>>, v: string)
    ensures HasLower(a + b, v) <==> HasLower(a, v) || HasLower(b, v)
  {
    if HasLower(a + b, v) {
      var i :| 0 <= i < |a + b| && (a + b)[i].Some? && Lower((a + b)[i].value) == v;
      if i >= |a| {
        assert b[i - |a|] == (a + b)[i];
      }
    }
    if HasLower(a, v) {
      var i :| 0 <= i < |a| && a[i].Some? && Lower(a[i].value) == v;
      assert (a + b)[i] == a[i];
    }
    if HasLower(b, v) {
      var i :| 0 <= i < |b| && b[i].Some? && Lower(b[i].value) == v;
      assert (a + b)[|a| + i] == b[i];
    }
  }

  /**
   * The overall risk of two lists together is the stronger of their
   * overall risks; with `RiscoFinal([]) == "baixo"` this makes it the
   * strongest risk of any single entry.
   */
  lemma RiscoFinalAppend(a: seq<Option<string>>, b: seq<Option<string>>)
    ensures RiscoFinal(a + b) == Stronger(RiscoFinal(a), RiscoFinal(b))
  {
    HasLowerAppend(a, b, "alto");
    HasLowerAppend(a, b, "medio");
  }

  lemma HasLowerPermutation(a: seq<Option<string>>, b: seq<Option<string>>, v: string)
    requires multiset(a) == multiset(b)
    ensures HasLower(a, v) ==> HasLower(b, v)
  {
    if HasLower(a, v) {
      var i :| 0 <= i < |a| && a[i].Some? && Lower(a[i].value) == v;
      assert a[i] in multiset(b);
      var j :| 0 <= j < |b| && b[j] == a[i];
    }
  }

  /** The order of the rows does not matter to the overall risk. */
  lemma RiscoFinalPermutation(a: seq<Option<string>>, b: seq<Option<string>>)
    requires multiset(a) == multiset(b)
    ensures RiscoFinal(a) == RiscoFinal(b)
  {
    HasLowerPermutation(a, b, "alto");
    HasLowerPermutation(b, a, "alto");
    HasLowerPermutation(a, b, "medio");
    HasLowerPermutation(b, a, "medio");
  }

  // ---------------------------------------------------------------- ordered categories

  /** The categories of the risk column, in their order. */
  const Categorias: seq<string> := ["alto", "m\U{E9}dio", "baixo"]

  /** `pd.Categorical` for one value: a value outside the categories (case counts) becomes missing. */
  function Category(v: Option<string>): Option<string> {
    if v.Some? && v.value in Categorias then v else None
  }

  /** The position `sort_values` gives a category; missing values go last. */
  function Rank(v: Option<string>): (r: nat)
    ensures r <= 3
  {
    if v == Some("alto") then 0
    else if v == Some("m\U{E9}dio") then 1
    else if v == Some("baixo") then 2
    else 3
  }

  /** `df["risco"] = pd.Categorical(df["risco"], ...)`. */
  function ToCategorical(rows: seq<Row>): (r: seq<Row>)
    ensures |r| == |rows|
    ensures forall i :: 0 <= i < |rows| ==> r[i] == rows[i].(risco := Category(rows[i].risco))
  {
    seq(|rows|, i requires 0 <= i < |rows| => rows[i].(risco := Category(rows[i].risco)))
  }

  /** The rows of rank `k`, in their order. */
  function Tier(rows: seq<Row>, k: nat): seq<Row>
    decreases |rows|
  {
    if rows == [] then []
    else
      var last := rows[|rows| - 1];
      Tier(rows[..|rows| - 1], k) + (if Rank(last.risco) == k then [last] else [])
  }

  /** `df.sort_values("risco")` on the categorical column: the rows tier by tier. */
  function SortByRisk(rows: seq<Row>): seq<Row> {
    var cat := ToCategorical(rows);
    Tier(cat, 0) + Tier(cat, 1) + Tier(cat, 2) + Tier(cat, 3)
  }

  predicate RankSorted(s: seq<Row>) {
    forall i, j :: 0 <= i < j < |s| ==> Rank(s[i].risco) <= Rank(s[j].risco)
  }

  predicate RanksWithin(s: seq<Row>, lo: nat, hi: nat) {
    forall x :: x in s ==> lo <= Rank(x.risco) <= hi
  }

  lemma {:induction false} TierRank(rows: seq<Row>, k: nat)
    ensures RanksWithin(Tier(rows, k), k, k)
    decreases |rows|
  {
    if rows != [] {
      TierRank(rows[..|rows| - 1], k);
    }
  }

  lemma ConcatSorted(a: seq<Row>, b: seq<Row>, lo: nat, k: nat, hi: nat)
    requires RankSorted(a) && RankSorted(b)
    requires lo <= k <= hi
    requires RanksWithin(a, lo, k) && RanksWithin(b, k, hi)
    ensures RankSorted(a + b) && RanksWithin(a + b, lo, hi)
  {
    forall i, j | 0 <= i < j < |a + b| ensures Rank((a + b)[i].risco) <= Rank((a + b)[j].risco) {
      if j < |a| {
        assert (a + b)[i] == a[i] && (a + b)[j] == a[j];
      } else if i >= |a| {
        assert (a + b)[i] == b[i - |a|] && (a + b)[j] == b[j - |a|];
      } else {
        assert (a + b)[i] == a[i] && (a + b)[j] == b[j - |a|];
      }
    }
    forall x | x in a + b ensures lo <= Rank(x.risco) <= hi {
      assert x in a || x in b;
    }
  }

  lemma TierSorted(rows: seq<Row>, k: nat)
    ensures RankSorted(Tier(rows, k)) && RanksWithin(Tier(rows, k), k, k)
  {
    TierRank(rows, k);
    var t := Tier(rows, k);
    forall i, j | 0 <= i < j < |t| ensures Rank(t[i].risco) <= Rank(t[j].risco) {
      assert t[i] in t && t[j] in t;
    }
  }

  lemma TierStep(rows: seq<Row>, k: nat)
    requires rows != []
    ensures multiset(Tier(rows, k)) ==
      multiset(Tier(rows[..|rows| - 1], k)) + (if Rank(rows[|rows| - 1].risco) == k then multiset{rows[|rows| - 1]} else multiset{})
  {
  }

  lemma Multiset4(a: seq<Row>, b: seq<Row>, c: seq<Row>, d: seq<Row>)
    ensures multiset(a + b + c + d) == multiset(a) + multiset(b) + multiset(c) + multiset(d)
  {
  }

  /** One row joins exactly one of the four tiers. */
  lemma OneTierGrows(n0: multiset<Row>, n1: multiset<Row>, n2: multiset<Row>, n3: multiset<Row>,
                     m0: multiset<Row>, m1: multiset<Row>, m2: multiset<Row>, m3: multiset<Row>,
                     e: multiset<Row>, r: nat)
    requires r <= 3
    requires m0 == n0 + (if r == 0 then e else multiset{})
    requires m1 == n1 + (if r == 1 then e else multiset{})
    requires m2 == n2 + (if r == 2 then e else multiset{})
    requires m3 == n3 + (if r == 3 then e else multiset{})
    ensures m0 + m1 + m2 + m3 == n0 + n1 + n2 + n3 + e
  {
  }

  /** The four tiers together hold every row exactly once. */
  lemma {:induction false} TiersPermute(rows: seq<Row>)
    ensures multiset(Tier(rows, 0) + Tier(rows, 1) + Tier(rows, 2) + Tier(rows, 3)) == multiset(rows)
    decreases |rows|
  {
    if rows != [] {
      var init := rows[..|rows| - 1];
      TiersPermute(init);
      assert rows == init + [rows[|rows| - 1]];
      Multiset4(Tier(rows, 0), Tier(rows, 1), Tier(rows, 2), Tier(rows, 3));
      Multiset4(Tier(init, 0), Tier(init, 1), Tier(init, 2), Tier(init, 3));
      TierStep(rows, 0);
      TierStep(rows, 1);
      TierStep(rows, 2);
      TierStep(rows, 3);
      OneTierGrows(
        multiset(Tier(init, 0)), multiset(Tier(init, 1)), multiset(Tier(init, 2)), multiset(Tier(init, 3)),
        multiset(Tier(rows, 0)), multiset(Tier(rows, 1)), multiset(Tier(rows, 2)), multiset(Tier(rows, 3)),
        multiset{rows[|rows| - 1]}, Rank(rows[|rows| - 1].risco));
    }
  }

  /**
   * The sort keeps every row (with its risk turned categorical) and puts
   * alto rows first, then médio, then baixo, then every row whose risk is
   * outside the categories, now missing.
   */
  lemma SortedByRisk(rows: seq<Row>)
    ensures multiset(SortByRisk(rows)) == multiset(ToCategorical(rows))
    ensures RankSorted(SortByRisk(rows))
  {
    var cat := ToCategorical(rows);
    TiersPermute(cat);
    TierSorted(cat, 0);
    TierSorted(cat, 1);
    TierSorted(cat, 2);
    TierSorted(cat, 3);
    ConcatSorted(Tier(cat, 0), Tier(cat, 1), 0, 1, 1);
    ConcatSorted(Tier(cat, 0) + Tier(cat, 1), Tier(cat, 2), 0, 2, 2);
    ConcatSorted(Tier(cat, 0) + Tier(cat, 1) + Tier(cat, 2), Tier(cat, 3), 0, 3, 3);
  }

  /** The sorted rows are the categorical rows, no more and no fewer. */
  lemma SortedSameRows(rows: seq<Row>)
    ensures forall x :: x in SortByRisk(rows) <==> x in ToCategorical(rows)
  {
    SortedByRisk(rows);
    forall x ensures x in SortByRisk(rows) <==> x in ToCategorical(rows) {
      assert x in SortByRisk(rows) <==> x in multiset(SortByRisk(rows));
      assert x in ToCategorical(rows) <==> x in multiset(ToCategorical(rows));
    }
  }

  /** After the sort every risk is one of the categories or missing. */
  lemma SortedCategories(rows: seq<Row>)
    ensures forall x :: x in SortByRisk(rows) ==> x.risco == None || x.risco.value in Categorias
  {
    SortedSameRows(rows);
    forall x | x in SortByRisk(rows) ensures x.risco == None || x.risco.value in Categorias {
      var j :| 0 <= j < |rows| && ToCategorical(rows)[j] == x;
    }
  }

  // ---------------------------------------------------------------- risco_final as main calls it

  /** Lower-casing leaves each category as it is. */
  lemma CategoryLower(y: string)
    requires y in Categorias
    ensures Lower(y) == y
  {
    if y == Categorias[1] {
      assert Lower(y)[1] == y[1];
    }
  }

  /** Some row has exactly the risk `v`. */
  predicate HasRisk(rows: seq<Row>, v: string) {
    exists i :: 0 <= i < |rows| && rows[i].risco == Some(v)
  }

  /** After the sort, a lower-cased risk is found exactly when it is a category some row holds. */
  lemma SortedLower(rows: seq<Row>, v: string)
    ensures HasLower(Riscos(SortByRisk(rows)), v) <==> v in Categorias && HasRisk(rows, v)
  {
    var s := SortByRisk(rows);
    var cat := ToCategorical(rows);
    SortedSameRows(rows);
    if HasLower(Riscos(s), v) {
      var i :| 0 <= i < |s| && Riscos(s)[i].Some? && Lower(Riscos(s)[i].value) == v;
      assert s[i] in cat;
      var j :| 0 <= j < |cat| && cat[j] == s[i];
      var y := s[i].risco.value;
      CategoryLower(y);
      assert rows[j].risco == Some(y);
    }
    if v in Categorias && HasRisk(rows, v) {
      var j :| 0 <= j < |rows| && rows[j].risco == Some(v);
      assert cat[j] in s;
      var i :| 0 <= i < |s| && s[i] == cat[j];
      CategoryLower(v);
      assert Riscos(s)[i] == Some(v);
    }
  }

  /** `risco_final(df_final=df)` exactly as `main` calls it: after the categorical sort. */
  function FinalRiskAsWritten(rows: seq<Row>): string {
    RiscoFinal(Riscos(SortByRisk(rows)))
  }

  /**
   * As written, the call in `main` can never answer "medio": the
   * categorical column holds "médio", never "medio".
   */
  lemma NeverMedio(rows: seq<Row>)
    ensures FinalRiskAsWritten(rows) != "medio"
    ensures FinalRiskAsWritten(rows) == "alto" <==> HasRisk(rows, "alto")
  {
    SortedLower(rows, "medio");
    SortedLower(rows, "alto");
  }

  /** A single médio row gives "baixo" as the overall risk. */
  lemma MedioLost()
    ensures FinalRiskAsWritten([Row("", Some("m\U{E9}dio"), None, None)]) == "baixo"
  {
    NeverMedio([Row("", Some("m\U{E9}dio"), None, None)]);
    SortedLower([Row("", Some("m\U{E9}dio"), None, None)], "alto");
  }

  /** `risco_final` testing the spelling the categories use, and the unaccented one as well. */
  function RiscoFinalCorrigido(riscos: seq<Option<string>>): (r: string)
    ensures r == "alto" || r == "m\U{E9}dio" || r == "baixo"
    ensures r == "alto" <==> HasLower(riscos, "alto")
    ensures r == "m\U{E9}dio" <==> !HasLower(riscos, "alto") && (HasLower(riscos, "m\U{E9}dio") || HasLower(riscos, "medio"))
  {
    var lowered := Lowered(riscos);
    if Some("alto") in lowered then "alto"
    else if Some("m\U{E9}dio") in lowered || Some("medio") in lowered then "m\U{E9}dio"
    else "baixo"
  }

  /** The overall risk `main` reports, with the corrected test. */
  function FinalRisk(rows: seq<Row>): string {
    RiscoFinalCorrigido(Riscos(SortByRisk(rows)))
  }

  /** The overall risk is the highest category that some row holds, and "baixo" when none does. */
  lemma FinalRiskIsHighest(rows: seq<Row>)
    ensures FinalRisk(rows) == "alto" <==> HasRisk(rows, "alto")
    ensures FinalRisk(rows) == "m\U{E9}dio" <==> !HasRisk(rows, "alto") && HasRisk(rows, "m\U{E9}dio")
    ensures FinalRisk(rows) == "baixo" <==> !HasRisk(rows, "alto") && !HasRisk(rows, "m\U{E9}dio")
  {
    SortedLower(rows, "alto");
    SortedLower(rows, "m\U{E9}dio");
    SortedLower(rows, "medio");
  }

  // ---------------------------------------------------------------- the summary input

  /** One row's entry of `resumo.fillna("")`. */
  function Summary(row: Row): string {
    if row.resumo.Some? then row.resumo.value else ""
  }

  /** `df_final.resumo.fillna("")`. */
  function Resumos(rows: seq<Row>): (r: seq<string>)
    ensures |r| == |rows|
    ensures forall i :: 0 <= i < |rows| ==> r[i] == if rows[i].resumo.Some? then rows[i].resumo.value else ""
  {
    seq(|rows|, i requires 0 <= i < |rows| => Summary(rows[i]))
  }

  /** The text `extrai_resumo_final` sends to the model: the summaries joined by blank lines. */
  function ResumoInput(rows: seq<Row>): string {
    Join(Resumos(rows), "\n\n")
  }

  /** Each further row adds a blank line and its summary, a missing summary counting as empty. */
  lemma ResumoInputAppend(rows: seq<Row>, row: Row)
    requires rows != []
    ensures ResumoInput(rows + [row]) == ResumoInput(rows) + "\n\n" + (if row.resumo.Some? then row.resumo.value else "")
  {
    assert Resumos(rows + [row]) == Resumos(rows) + [if row.resumo.Some? then row.resumo.value else ""];
    JoinSnoc(Resumos(rows), if row.resumo.Some? then row.resumo.value else "", "\n\n");
  }

  lemma ResumosAppend(a: seq<Row>, b: seq<Row>)
    ensures Resumos(a + b) == Resumos(a) + Resumos(b)
  {
    assert forall i :: 0 <= i < |a + b| ==> (a + b)[i] == if i < |a| then a[i] else b[i - |a|];
  }

  lemma CancelOne(m: multiset<Row>, n: multiset<Row>, x: Row)
    requires m + multiset{x} == n + multiset{x}
    ensures m == n
  {
    forall y ensures m[y] == n[y] {
      assert (m + multiset{x})[y] == (n + multiset{x})[y];
    }
  }

  /** Rows that are a permutation of each other have summaries that are a permutation of each other. */
  lemma {:induction false} ResumosPermute(a: seq<Row>, b: seq<Row>)
    requires multiset(a) == multiset(b)
    ensures multiset(Resumos(a)) == multiset(Resumos(b))
    decreases |a|
  {
    if a == [] {
      assert |b| == |multiset(b)| == 0;
    } else {
      var x := a[|a| - 1];
      var init := a[..|a| - 1];
      assert a == init + [x];
      assert x in multiset(b);
      var j :| 0 <= j < |b| && b[j] == x;
      var rest := b[..j] + b[j + 1..];
      assert b == b[..j] + [x] + b[j + 1..];
      assert multiset(b) == multiset(b[..j]) + multiset{x} + multiset(b[j + 1..]);
      assert multiset(a) == multiset(init) + multiset{x};
      assert multiset(rest) == multiset(b[..j]) + multiset(b[j + 1..]);
      assert multiset(rest) + multiset{x} == multiset(init) + multiset{x};
      CancelOne(multiset(rest), multiset(init), x);
      ResumosPermute(init, rest);
      ResumosAppend(init, [x]);
      ResumosAppend(b[..j], [x]);
      ResumosAppend(b[..j] + [x], b[j + 1..]);
      ResumosAppend(b[..j], b[j + 1..]);
    }
  }

  /** Turning the risk column categorical leaves the summaries alone. */
  lemma ResumosCategorical(rows: seq<Row>)
    ensures Resumos(ToCategorical(rows)) == Resumos(rows)
  {
  }

  /**
   * `main` hands `extrai_resumo_final` the sorted frame: its summaries are
   * those of the input rows, each once, taken tier by tier: every alto
   * row's summary first, then médio, then baixo, then the rows without a
   * category.  Within a tier the summaries keep the input order here.
   */
  lemma SortedResumos(rows: seq<Row>)
    ensures multiset(Resumos(SortByRisk(rows))) == multiset(Resumos(rows))
    ensures var cat := ToCategorical(rows);
      Resumos(SortByRisk(rows)) == Resumos(Tier(cat, 0)) + Resumos(Tier(cat, 1)) + Resumos(Tier(cat, 2)) + Resumos(Tier(cat, 3))
  {
    var cat := ToCategorical(rows);
    SortedByRisk(rows);
    ResumosPermute(SortByRisk(rows), cat);
    ResumosCategorical(rows);
    ResumosAppend(Tier(cat, 0), Tier(cat, 1));
    ResumosAppend(Tier(cat, 0) + Tier(cat, 1), Tier(cat, 2));
    ResumosAppend(Tier(cat, 0) + Tier(cat, 1) + Tier(cat, 2), Tier(cat, 3));
  }

  // ---------------------------------------------------------------- the crimes shown

  /** `[c.strip() for c in parts]`. */
  function Trimmed(parts: seq<string>): (r: seq<string>)
    ensures |r| == |parts| && forall i :: 0 <= i < |parts| ==> r[i] == Strip(parts[i])
  {
    seq(|parts|, i requires 0 <= i < |parts| => Strip(parts[i]))
  }

  /** The tokens of one `crimes` value: split on commas, each piece stripped. */
  function RowTokens(crimes: string): seq<string> {
    Trimmed(Split(crimes, ','))
  }

  /** The tokens of each row. */
  function PerRow(crimes: seq<string>): (r: seq<seq<string>>)
    ensures |r| == |crimes| && forall i :: 0 <= i < |crimes| ==> r[i] == RowTokens(crimes[i])
  {
    seq(|crimes|, i requires 0 <= i < |crimes| => RowTokens(crimes[i]))
  }

  /** The lists one after the other. */
  function Flatten(xss: seq<seq<string>>): seq<string>
    decreases |xss|
  {
    if xss == [] then [] else Flatten(xss[..|xss| - 1]) + xss[|xss| - 1]
  }

  lemma {:induction false} FlattenMembers(xss: seq<seq<string>>)
    ensures forall t :: t in Flatten(xss) <==> exists i :: 0 <= i < |xss| && t in xss[i]
    decreases |xss|
  {
    if xss != [] {
      var init := xss[..|xss| - 1];
      FlattenMembers(init);
      forall t ensures t in Flatten(xss) <==> exists i :: 0 <= i < |xss| && t in xss[i] {
        if exists i :: 0 <= i < |xss| && t in xss[i] {
          var i :| 0 <= i < |xss| && t in xss[i];
          if i < |init| {
            assert xss[i] == init[i];
          }
        }
        if exists i :: 0 <= i < |init| && t in init[i] {
          var i :| 0 <= i < |init| && t in init[i];
          assert xss[i] == init[i];
        }
      }
    }
  }

  /** `crimes_individuais`: the tokens of every row, row by row. */
  function CrimeTokens(crimes: seq<string>): seq<string> {
    Flatten(PerRow(crimes))
  }

  /** A token as the split and the strip leave it: no comma, no white space at either end. */
  predicate IsToken(t: string) {
    ',' !in t && (t == [] || (!IsSpace(t[0]) && !IsSpace(t[|t| - 1])))
  }

  lemma StripToken(p: string)
    requires ',' !in p
    ensures IsToken(Strip(p))
  {
    var l := StripLeft(p);
    var r := StripRight(l);
    assert r == Strip(p);
    forall i | 0 <= i < |r| ensures r[i] != ',' {
      assert r[i] == l[i] == p[|p| - |l| + i];
    }
  }

  /** Every token of a row is comma-free and stripped. */
  lemma RowTokensShape(crimes: string)
    ensures forall t :: t in RowTokens(crimes) ==> IsToken(t)
  {
    var parts := Split(crimes, ',');
    var r := RowTokens(crimes);
    forall t | t in r ensures IsToken(t) {
      var k :| 0 <= k < |r| && r[k] == t;
      assert parts[k] in parts;
      StripToken(parts[k]);
    }
  }

  /** A token comes from some row, and every token of every row is there. */
  lemma CrimeTokensMembers(crimes: seq<string>)
    ensures forall t :: t in CrimeTokens(crimes) <==> exists i :: 0 <= i < |crimes| && t in RowTokens(crimes[i])
  {
    var xss := PerRow(crimes);
    FlattenMembers(xss);
    forall t ensures t in CrimeTokens(crimes) <==> exists i :: 0 <= i < |crimes| && t in RowTokens(crimes[i]) {
      if exists i :: 0 <= i < |crimes| && t in RowTokens(crimes[i]) {
        var i :| 0 <= i < |crimes| && t in RowTokens(crimes[i]);
        assert t in xss[i];
      }
    }
  }

  /** Every token is comma-free and stripped. */
  lemma CrimeTokensShape(crimes: seq<string>)
    ensures forall t :: t in CrimeTokens(crimes) ==> IsToken(t)
  {
    CrimeTokensMembers(crimes);
    forall t | t in CrimeTokens(crimes) ensures IsToken(t) {
      var i :| 0 <= i < |crimes| && t in RowTokens(crimes[i]);
      RowTokensShape(crimes[i]);
    }
  }

  /** A token that names no crime: its lower-cased text contains "nenhum". */
  predicate Nenhum(t: string) {
    Contains(Lower(t), "nenhum")
  }

  /** `[c for c in crimes_individuais if "nenhum" not in c.lower()]`. */
  function NamedCrimes(tokens: seq<string>): (r: seq<string>)
    ensures forall t :: t in r <==> t in tokens && !Nenhum(t)
    decreases |tokens|
  {
    if tokens == [] then []
    else
      var init := tokens[..|tokens| - 1];
      var last := tokens[|tokens| - 1];
      assert tokens == init + [last];
      NamedCrimes(init) + (if Nenhum(last) then [] else [last])
  }

  /** `sorted(crimes_unicos)`. */
  function Listed(crimes: seq<string>): seq<string> {
    SortedSet(NamedCrimes(CrimeTokens(crimes)))
  }

  /**
   * The crimes listed are ascending and distinct, and they are exactly
   * the tokens of the rows that do not mention "nenhum".
   */
  lemma ListedCrimes(crimes: seq<string>)
    ensures StrictlySorted(Listed(crimes)) && Distinct(Listed(crimes))
    ensures forall t :: t in Listed(crimes) <==>
      (exists i :: 0 <= i < |crimes| && t in RowTokens(crimes[i])) && !Nenhum(t)
  {
    CrimeTokensMembers(crimes);
    SortedDistinct(Listed(crimes));
    assert forall t :: t in Listed(crimes) <==> t in Elems(Listed(crimes));
  }

  /** `", ".join(sorted(crimes_unicos)).lstrip(", ")`: what the page shows. */
  function CrimeDisplay(crimes: seq<string>): (r: string)
    ensures r == [] || (r[0] != ',' && r[0] != ' ')
  {
    StripLeftChars(Join(Listed(crimes), ", "), {',', ' '})
  }

  /** The members of a sequence other than the empty string, in order. */
  function NonEmpty(s: seq<string>): (r: seq<string>)
    ensures forall t :: t in r <==> t in s && t != []
    decreases |s|
  {
    if s == [] then []
    else
      var init := s[..|s| - 1];
      assert s == init + [s[|s| - 1]];
      NonEmpty(init) + (if s[|s| - 1] == [] then [] else [s[|s| - 1]])
  }

  /** A join that starts with a token is left alone by `lstrip(", ")`. */
  lemma StripTokenJoin(parts: seq<string>)
    requires parts != [] && parts[0] != [] && IsToken(parts[0])
    ensures StripLeftChars(Join(parts, ", "), {',', ' '}) == Join(parts, ", ")
  {
    JoinHead(parts, ", ");
  }

  /** Two ascending lists with the same members are equal. */
  lemma SameMembers(x: seq<string>, y: seq<string>)
    requires StrictlySorted(x) && StrictlySorted(y)
    requires forall t :: t in x <==> t in y
    ensures x == y
  {
    assert Elems(x) == Elems(y);
    SortedUnique(x, y);
  }

  /** An empty token in front leaves ", " before the join of the rest, and `lstrip` removes it. */
  lemma StripAfterEmpty(rest: seq<string>)
    requires rest != [] && rest[0] != [] && IsToken(rest[0])
    ensures StripLeftChars(Join([[]] + rest, ", "), {',', ' '}) == Join(rest, ", ")
  {
    var j := Join(rest, ", ");
    var c := {',', ' '};
    assert ([[]] + rest)[1..] == rest;
    assert Join([[]] + rest, ", ") == ", " + j;
    assert (", " + j)[1..] == " " + j;
    assert (" " + j)[1..] == j;
    assert StripLeftChars(", " + j, c) == StripLeftChars(" " + j, c);
    assert StripLeftChars(" " + j, c) == StripLeftChars(j, c);
    StripTokenJoin(rest);
  }

  /** Without an empty token, `lstrip(", ")` leaves the join alone. */
  lemma NoEmptyToken(s: seq<string>, want: seq<string>)
    requires StrictlySorted(s) && StrictlySorted(want)
    requires s != [] && s[0] != []
    requires forall t :: t in s ==> IsToken(t)
    requires forall t :: t in want <==> t in s && t != []
    ensures StripLeftChars(Join(s, ", "), {',', ' '}) == Join(want, ", ")
  {
    assert IsToken(s[0]) by {
      assert s[0] in s;
    }
    assert [] !in s by {
      if [] in s {
        HeadIsLeast(s, []);
      }
    }
    SameMembers(s, want);
    StripTokenJoin(s);
  }

  /** With the empty token in front, `lstrip(", ")` removes what it leaves there. */
  lemma EmptyTokenFirst(s: seq<string>, want: seq<string>)
    requires StrictlySorted(s) && StrictlySorted(want)
    requires s != [] && s[0] == []
    requires forall t :: t in s ==> IsToken(t)
    requires forall t :: t in want <==> t in s && t != []
    ensures StripLeftChars(Join(s, ", "), {',', ' '}) == Join(want, ", ")
  {
    var rest := s[1..];
    TailElems(s);
    assert forall t :: t in rest <==> t in s && t != [] by {
      assert forall t :: t in rest <==> t in Elems(rest);
      assert forall t :: t in s <==> t in Elems(s);
    }
    SameMembers(rest, want);
    assert s == [[]] + rest;
    if rest != [] {
      assert rest[0] in s;
      StripAfterEmpty(rest);
    }
  }

  /**
   * In an ascending list of tokens the empty token can only come first, so
   * `lstrip(", ")` of the join removes exactly what it leaves there.
   */
  lemma DropEmptyHead(s: seq<string>, want: seq<string>)
    requires StrictlySorted(s) && StrictlySorted(want)
    requires forall t :: t in s ==> IsToken(t)
    requires forall t :: t in want <==> t in s && t != []
    ensures StripLeftChars(Join(s, ", "), {',', ' '}) == Join(want, ", ")
  {
    if s == [] {
      SameMembers(s, want);
    } else if s[0] == [] {
      EmptyTokenFirst(s, want);
    } else {
      NoEmptyToken(s, want);
    }
  }

  /**
   * The `lstrip` only removes what an empty token leaves at the front: the
   * page shows the distinct non-empty crime tokens in ascending order,
   * joined by ", ".
   */
  lemma DisplayDropsEmpty(crimes: seq<string>)
    ensures CrimeDisplay(crimes) == Join(SortedSet(NonEmpty(NamedCrimes(CrimeTokens(crimes)))), ", ")
  {
    var named := NamedCrimes(CrimeTokens(crimes));
    var want := SortedSet(NonEmpty(named));
    CrimeTokensShape(crimes);
    assert forall t :: t in Listed(crimes) <==> t in Elems(Listed(crimes));
    assert forall t :: t in want <==> t in Elems(want);
    DropEmptyHead(Listed(crimes), want);
  }

  /** Every crime listed for `a` is listed for `b` when every `crimes` value of `a` occurs in `b`. */
  lemma ListedWithin(a: seq<string>, b: seq<string>)
    requires Elems(a) <= Elems(b)
    ensures forall t :: t in Listed(a) ==> t in Listed(b)
  {
    ListedCrimes(a);
    ListedCrimes(b);
    forall t | t in Listed(a) ensures t in Listed(b) {
      var i :| 0 <= i < |a| && t in RowTokens(a[i]);
      assert a[i] in Elems(b);
      var j :| 0 <= j < |b| && b[j] == a[i];
    }
  }

  /** The crimes shown depend only on which `crimes` values occur, not on their order or repetition. */
  lemma DisplayOrderFree(a: seq<string>, b: seq<string>)
    requires Elems(a) == Elems(b)
    ensures CrimeDisplay(a) == CrimeDisplay(b)
  {
    ListedWithin(a, b);
    ListedWithin(b, a);
    ListedCrimes(a);
    ListedCrimes(b);
    assert Elems(Listed(a)) == Elems(Listed(b));
    SortedUnique(Listed(a), Listed(b));
  }

  /** The `crimes` column. */
  function Crimes(rows: seq<Row>): (r: seq<string>)
    ensures |r| == |rows| && forall i :: 0 <= i < |rows| ==> r[i] == rows[i].crimes
  {
    seq(|rows|, i requires 0 <= i < |rows| => rows[i].crimes)
  }

  /** Sorting the rows first, as `main` does, does not change the crimes shown. */
  lemma DisplayAfterSort(rows: seq<Row>)
    ensures CrimeDisplay(Crimes(SortByRisk(rows))) == CrimeDisplay(Crimes(rows))
  {
    var s := SortByRisk(rows);
    var cat := ToCategorical(rows);
    SortedSameRows(rows);
    forall c ensures c in Elems(Crimes(s)) <==> c in Elems(Crimes(rows)) {
      if c in Elems(Crimes(s)) {
        var i :| 0 <= i < |s| && Crimes(s)[i] == c;
        assert s[i] in cat;
        var j :| 0 <= j < |cat| && cat[j] == s[i];
        assert Crimes(rows)[j] == c;
      }
      if c in Elems(Crimes(rows)) {
        var j :| 0 <= j < |rows| && Crimes(rows)[j] == c;
        assert cat[j] in s;
        var i :| 0 <= i < |s| && s[i] == cat[j];
        assert Crimes(s)[i] == c;
      }
    }
    DisplayOrderFree(Crimes(s), Crimes(rows));
  }
}
