/**
 * Column resolution for free-form sales exports in bin/calculate-cost-basis.py:
 * `_find_col` (exact case-insensitive match by candidate priority, then a
 * substring fallback in column order) and `load_sales`, which fails with the
 * list of columns it found when the date, share or price column is missing.
 */
module SalesColumns {
  import opened Wrappers
  import opened Text

  const DateCandidates: seq<string> := ["date", "sale date", "transaction date"]
  const SharesCandidates: seq<string> := ["shares", "quantity", "units", "issued", "shares sold", "qty"]
  const PriceCandidates: seq<string> := ["price per share ($)", "priceusd", "price", "sale price", "sale price ($)"]

  /** Column `i` is the last one whose lower-cased name is `Lower(cols[i])`. */
  predicate IsLastWithLower(cols: seq<string>, i: nat)
    requires i < |cols|
  {
    forall j :: i < j < |cols| ==> Lower(cols[j]) != Lower(cols[i])
  }

  /**
   * The dictionary `{c.lower(): c for c in cols}`: one key per lower-cased name,
   * mapped to the LAST column with that name, since later entries overwrite.
   */
  function LowerIndex(cols: seq<string>): map<string, string> {
    if cols == [] then map[]
    else LowerIndex(cols[..|cols| - 1])[Lower(cols[|cols| - 1]) := cols[|cols| - 1]]
  }

  /** The dictionary's keys are exactly the lower-cased column names, each mapped to a column spelled that way. */
  lemma {:induction false} LowerIndexKeys(cols: seq<string>)
    ensures forall k :: k in LowerIndex(cols) <==> ExactHit(cols, k)
    ensures forall k :: k in LowerIndex(cols) ==> LowerIndex(cols)[k] in cols && Lower(LowerIndex(cols)[k]) == k
  {
    if cols != [] {
      var n := |cols| - 1;
      LowerIndexKeys(cols[..n]);
      forall k
        ensures ExactHit(cols, k) <==> ExactHit(cols[..n], k) || k == Lower(cols[n])
      {
        if ExactHit(cols, k) && k != Lower(cols[n]) {
          var i :| 0 <= i < |cols| && Lower(cols[i]) == k;
          assert cols[..n][i] == cols[i];
        }
        if ExactHit(cols[..n], k) {
          var i :| 0 <= i < n && Lower(cols[..n][i]) == k;
          assert cols[i] == cols[..n][i];
        }
      }
      assert forall c :: c in cols[..n] ==> c in cols;
    }
  }

  /** The last column with a given lower-cased name is the one the dictionary keeps. */
  lemma {:induction false} LowerIndexKeepsLast(cols: seq<string>, i: nat)
    requires i < |cols| && IsLastWithLower(cols, i)
    ensures Lower(cols[i]) in LowerIndex(cols) && LowerIndex(cols)[Lower(cols[i])] == cols[i]
  {
    var n := |cols| - 1;
    if i < n {
      assert cols[..n][i] == cols[i];
      assert IsLastWithLower(cols[..n], i) by {
        forall j | i < j < n ensures Lower(cols[..n][j]) != Lower(cols[..n][i]) {
          assert cols[..n][j] == cols[j];
        }
      }
      LowerIndexKeepsLast(cols[..n], i);
    }
  }

  /** Some column equals `cand` once lower-cased. */
  predicate ExactHit(cols: seq<string>, cand: string) {
    exists i :: 0 <= i < |cols| && Lower(cols[i]) == cand
  }

  /** `any(cand in col.lower() for cand in candidates)`. */
  predicate LooseHit(col: string, candidates: seq<string>) {
    exists k :: 0 <= k < |candidates| && Contains(Lower(col), candidates[k])
  }

  /** First loop of `_find_col`: the first candidate, in priority order, that is a key of `lc`. */
  function ExactMatch(lc: map<string, string>, candidates: seq<string>): (r: Option<string>)
    ensures r.None? <==> forall p :: 0 <= p < |candidates| ==> candidates[p] !in lc
    ensures r.Some? ==> r.value in lc.Values
    ensures forall p :: 0 <= p < |candidates| && candidates[p] in lc
                        && (forall q :: 0 <= q < p ==> candidates[q] !in lc)
                        ==> r == Some(lc[candidates[p]])
  {
    if candidates == [] then None
    else if candidates[0] in lc then Some(lc[candidates[0]])
    else
      assert forall p :: 1 <= p < |candidates| ==> candidates[1..][p - 1] == candidates[p];
      ExactMatch(lc, candidates[1..])
  }

  /** Second loop of `_find_col`: the first column, in column order, that contains a candidate. */
  function LooseMatch(cols: seq<string>, candidates: seq<string>): (r: Option<string>)
    ensures r.None? <==> forall i :: 0 <= i < |cols| ==> !LooseHit(cols[i], candidates)
    ensures r.Some? ==> r.value in cols && LooseHit(r.value, candidates)
    ensures forall i :: 0 <= i < |cols| && LooseHit(cols[i], candidates)
                        && (forall j :: 0 <= j < i ==> !LooseHit(cols[j], candidates))
                        ==> r == Some(cols[i])
  {
    if cols == [] then None
    else if LooseHit(cols[0], candidates) then Some(cols[0])
    else
      assert forall i :: 1 <= i < |cols| ==> cols[1..][i - 1] == cols[i];
      LooseMatch(cols[1..], candidates)
  }

  /** `_find_col(cols, candidates)`: the exact pass over the dictionary, then the loose pass. */
  function FindCol(cols: seq<string>, candidates: seq<string>): Option<string> {
    var lc := LowerIndex(cols);
    match ExactMatch(lc, candidates)
    case Some(c) => Some(c)
    case None => LooseMatch(cols, candidates)
  }

  /**
   * An exact (case-insensitive) match wins: when candidate `p` is the
   * highest-priority candidate naming some column, `_find_col` returns the last
   * column spelled that way, whatever the columns before it contain.
   */
  lemma FindColPrefersExact(cols: seq<string>, candidates: seq<string>, p: nat, i: nat)
    requires p < |candidates| && i < |cols|
    requires Lower(cols[i]) == candidates[p] && IsLastWithLower(cols, i)
    requires forall q :: 0 <= q < p ==> !ExactHit(cols, candidates[q])
    ensures FindCol(cols, candidates) == Some(cols[i])
  {
    LowerIndexKeys(cols);
    LowerIndexKeepsLast(cols, i);
  }

  /**
   * Without any exact match, `_find_col` returns the first column, in column
   * order, whose lower-cased name contains some candidate.
   */
  lemma FindColFallsBackToLoose(cols: seq<string>, candidates: seq<string>, i: nat)
    requires forall p :: 0 <= p < |candidates| ==> !ExactHit(cols, candidates[p])
    requires i < |cols| && LooseHit(cols[i], candidates)
    requires forall j :: 0 <= j < i ==> !LooseHit(cols[j], candidates)
    ensures FindCol(cols, candidates) == Some(cols[i])
  {
    LowerIndexKeys(cols);
  }

  /**
   * `_find_col` returns `None` exactly when no lower-cased column name contains
   * any candidate, and otherwise one of the columns, whose lower-cased name
   * contains a candidate.
   */
  lemma FindColNoneIffNoMention(cols: seq<string>, candidates: seq<string>)
    ensures FindCol(cols, candidates).None? <==> forall i :: 0 <= i < |cols| ==> !LooseHit(cols[i], candidates)
    ensures FindCol(cols, candidates).Some? ==> FindCol(cols, candidates).value in cols
                                                && LooseHit(FindCol(cols, candidates).value, candidates)
  {
    var lc := LowerIndex(cols);
    LowerIndexKeys(cols);
    if ExactMatch(lc, candidates).Some? {
      var p :| 0 <= p < |candidates| && candidates[p] in lc;
      assert ExactHit(cols, candidates[p]);
      var i :| 0 <= i < |cols| && Lower(cols[i]) == candidates[p];
      assert candidates[p] <= Lower(cols[i]);
      assert LooseHit(cols[i], candidates);
      var c := ExactMatch(lc, candidates).value;
      assert c in lc.Values;
      var k :| k in lc && lc[k] == c;
      assert c in cols && Lower(c) == k;
      assert ExactHit(cols, k);
      var p' :| 0 <= p' < |candidates| && candidates[p'] == k by {
        assert k in lc;
        ExactMatchPicksCandidate(lc, candidates);
      }
      assert candidates[p'] <= Lower(c);
      assert LooseHit(c, candidates);
    }
  }

  /** The value the exact pass returns is the dictionary entry of one of the candidates. */
  lemma {:induction false} ExactMatchPicksCandidate(lc: map<string, string>, candidates: seq<string>)
    requires ExactMatch(lc, candidates).Some?
    ensures exists p :: 0 <= p < |candidates| && candidates[p] in lc && lc[candidates[p]] == ExactMatch(lc, candidates).value
  {
    if candidates[0] !in lc {
      ExactMatchPicksCandidate(lc, candidates[1..]);
      var p :| 0 <= p < |candidates| - 1 && candidates[1..][p] in lc && lc[candidates[1..][p]] == ExactMatch(lc, candidates).value;
      assert candidates[p + 1] == candidates[1..][p];
    }
  }

  /** The three columns `load_sales` reads from a sales export. */
  datatype SalesColumnNames = SalesColumnNames(date: string, shares: string, price: string)

  /** The `ValueError` of `load_sales`, whose message lists the columns found. */
  datatype SchemaError = MissingColumns(found: seq<string>)

  /** Python's `not col` on a resolved column: `None`, or the empty name. */
  predicate Unresolved(col: Option<string>) {
    col.None? || col.value == ""
  }

  /** The column check of `load_sales`. */
  function ResolveSalesColumns(cols: seq<string>): (r: Result<SalesColumnNames, SchemaError>)
    ensures r.Failure? ==> r.error == MissingColumns(cols)
    ensures r.Success? ==> && FindCol(cols, DateCandidates) == Some(r.value.date)
                           && FindCol(cols, SharesCandidates) == Some(r.value.shares)
                           && FindCol(cols, PriceCandidates) == Some(r.value.price)
  {
    var date := FindCol(cols, DateCandidates);
    var shares := FindCol(cols, SharesCandidates);
    var price := FindCol(cols, PriceCandidates);
    if Unresolved(date) || Unresolved(shares) || Unresolved(price) then Failure(MissingColumns(cols))
    else Success(SalesColumnNames(date.value, shares.value, price.value))
  }

  /** No column of the export mentions any of `candidates`. */
  predicate NoColumnMentions(cols: seq<string>, candidates: seq<string>) {
    forall i :: 0 <= i < |cols| ==> !LooseHit(cols[i], candidates)
  }

  /** A column found for non-empty candidates has a non-empty name. */
  lemma FoundColumnIsNamed(cols: seq<string>, candidates: seq<string>)
    requires forall p :: 0 <= p < |candidates| ==> candidates[p] != ""
    ensures !Unresolved(FindCol(cols, candidates)) <==> !NoColumnMentions(cols, candidates)
  {
    FindColNoneIffNoMention(cols, candidates);
    var r := FindCol(cols, candidates);
    if r.Some? {
      var k :| 0 <= k < |candidates| && Contains(Lower(r.value), candidates[k]);
      var at := ContainsWitness(Lower(r.value), candidates[k]);
    }
  }

  /**
   * `load_sales` fails with the list of columns found exactly when one of the
   * three fields has no column mentioning any of its aliases; the `not col`
   * test never rejects a column it found, as no alias is empty.
   */
  lemma SchemaErrorIffFieldUnmentioned(cols: seq<string>)
    ensures ResolveSalesColumns(cols).Failure?
            <==> NoColumnMentions(cols, DateCandidates)
                 || NoColumnMentions(cols, SharesCandidates)
                 || NoColumnMentions(cols, PriceCandidates)
  {
    FoundColumnIsNamed(cols, DateCandidates);
    FoundColumnIsNamed(cols, SharesCandidates);
    FoundColumnIsNamed(cols, PriceCandidates);
  }

  /** Every date alias contains the word "date". */
  lemma DateAliasesMentionDate()
    ensures forall p :: 0 <= p < |DateCandidates| ==> Contains(DateCandidates[p], "date")
  {
    assert "date"[0..4] == "date";
    ContainsAt("date", "date", 0);
    assert "sale date"[5..9] == "date";
    ContainsAt("sale date", "date", 5);
    assert "transaction date"[12..16] == "date";
    ContainsAt("transaction date", "date", 12);
  }

  /** Every price alias contains the word "price". */
  lemma PriceAliasesMentionPrice()
    ensures forall p :: 0 <= p < |PriceCandidates| ==> Contains(PriceCandidates[p], "price")
  {
    assert "price per share ($)"[0..5] == "price";
    ContainsAt("price per share ($)", "price", 0);
    assert "priceusd"[0..5] == "price";
    ContainsAt("priceusd", "price", 0);
    assert "price"[0..5] == "price";
    ContainsAt("price", "price", 0);
    assert "sale price"[5..10] == "price";
    ContainsAt("sale price", "price", 5);
    assert "sale price ($)"[5..10] == "price";
    ContainsAt("sale price ($)", "price", 5);
  }

  /**
   * Every date alias contains "date" and every price alias contains "price":
   * an export with no column mentioning one of those words is rejected,
   * listing its columns.
   */
  lemma NoDateOrPriceColumn(cols: seq<string>)
    requires (forall i :: 0 <= i < |cols| ==> !Contains(Lower(cols[i]), "date"))
             || (forall i :: 0 <= i < |cols| ==> !Contains(Lower(cols[i]), "price"))
    ensures ResolveSalesColumns(cols) == Failure(MissingColumns(cols))
  {
    var word := if forall i :: 0 <= i < |cols| ==> !Contains(Lower(cols[i]), "date") then "date" else "price";
    var cands := if word == "date" then DateCandidates else PriceCandidates;
    DateAliasesMentionDate();
    PriceAliasesMentionPrice();
    forall i | 0 <= i < |cols| ensures !LooseHit(cols[i], cands) {
      if LooseHit(cols[i], cands) {
        var p :| 0 <= p < |cands| && Contains(Lower(cols[i]), cands[p]);
        ContainsTransitive(Lower(cols[i]), cands[p], word);
      }
    }
    SchemaErrorIffFieldUnmentioned(cols);
  }

  /** The three resolved names are columns of the export. */
  lemma ResolvedNamesAreColumns(cols: seq<string>)
    requires ResolveSalesColumns(cols).Success?
    ensures var names := ResolveSalesColumns(cols).value;
            names.date in cols && names.shares in cols && names.price in cols
  {
    FindColNoneIffNoMention(cols, DateCandidates);
    FindColNoneIffNoMention(cols, SharesCandidates);
    FindColNoneIffNoMention(cols, PriceCandidates);
  }

  /** A sales export as read by `pd.read_csv`: a header row and cells as text. */
  datatype SalesTable = SalesTable(columns: seq<string>, rows: seq<seq<string>>)

  /** One row of the frame `load_sales` returns, before `astype(float)` converts the numbers. */
  datatype SaleRow = SaleRow(date: string, sold: string, price: string)

  /** Position of the first column called `name`; `|cols|` when there is none. */
  function ColumnIndex(cols: seq<string>, name: string): (k: nat)
    ensures k <= |cols|
    ensures k < |cols| ==> cols[k] == name
    ensures forall j :: 0 <= j < k ==> cols[j] != name
  {
    if cols == [] || cols[0] == name then 0 else 1 + ColumnIndex(cols[1..], name)
  }

  /**
   * `load_sales` on a table already read: the column check, then one row per
   * input row holding the date (with `/` replaced by `-`), the shares and the
   * price cells of the resolved columns.
   */
  function LoadSales(t: SalesTable): (r: Result<seq<SaleRow>, SchemaError>)
    requires forall k :: 0 <= k < |t.rows| ==> |t.rows[k]| == |t.columns|
    ensures r.Failure? <==> ResolveSalesColumns(t.columns).Failure?
    ensures r.Failure? ==> r.error == MissingColumns(t.columns)
    ensures r.Success? ==> |r.value| == |t.rows|
    ensures r.Success? ==> forall k :: 0 <= k < |r.value| ==> '/' !in r.value[k].date
    ensures r.Success? ==>
              var d := ColumnIndex(t.columns, FindCol(t.columns, DateCandidates).value);
              var s := ColumnIndex(t.columns, FindCol(t.columns, SharesCandidates).value);
              var p := ColumnIndex(t.columns, FindCol(t.columns, PriceCandidates).value);
              && d < |t.columns| && s < |t.columns| && p < |t.columns|
              && forall k :: 0 <= k < |r.value| ==>
                   r.value[k] == SaleRow(ReplaceChar(t.rows[k][d], '/', '-'), t.rows[k][s], t.rows[k][p])
  {
    match ResolveSalesColumns(t.columns)
    case Failure(e) => Failure(e)
    case Success(names) =>
      ResolvedNamesAreColumns(t.columns);
      var d := ColumnIndex(t.columns, names.date);
      var s := ColumnIndex(t.columns, names.shares);
      var p := ColumnIndex(t.columns, names.price);
      Success(seq(|t.rows|, k requires 0 <= k < |t.rows| =>
        SaleRow(ReplaceChar(t.rows[k][d], '/', '-'), t.rows[k][s], t.rows[k][p])))
  }
}
