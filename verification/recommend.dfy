/** `get_recommendations(query, search_by)`: normalise the query, pick the
    rows the search mode selects, project them to five fields and keep the
    first ten. Every error becomes an empty list. */
module Recommend {
  import opened Wrappers
  import opened Text
  import opened Dataset

  const NameMode: string := "name"
  const CuisineMode: string := "cuisine"
  const PriceMode: string := "price"
  const RatingsMode: string := "ratings"
  const KnownModes: set<string> := {NameMode, CuisineMode, PriceMode, RatingsMode}

  /** The `search_by` value both search routes fall back on; it names no mode. */
  const RouteDefaultMode: string := "names"

  /** `head(10)`. */
  const MaxResults: nat := 10

  function Min(a: int, b: int): int {
    if a <= b then a else b
  }

  // ---------------------------------------------------------------------------
  // Price bands

  const BandCount: nat := 7

  /** Price band `k` is (-inf, 500] for k = 0, (500k, 500(k+1)] for
      1 <= k <= 5, and (3000, +inf) for k = 6. */
  predicate InBand(k: nat, v: int) {
    && (k == 0 || 500 * k < v)
    && (k == BandCount - 1 || v <= 500 * (k + 1))
  }

  /** The band of a price, found the way the query price is classified:
      a chain of upper bounds 500, 1000, ..., 3000. */
  function Band(v: int): (k: nat)
    ensures k < BandCount && InBand(k, v)
  {
    if v <= 500 then 0
    else if v <= 1000 then 1
    else if v <= 1500 then 2
    else if v <= 2000 then 3
    else if v <= 2500 then 4
    else if v <= 3000 then 5
    else 6
  }

  /** The seven bands partition the integers: a price lies in exactly one. */
  lemma BandsPartition(k: nat, v: int)
    requires k < BandCount
    ensures InBand(k, v) <==> k == Band(v)
  {
  }

  /** The row condition of the price branch: the query price `v` picks one
      branch of the chain, and that branch compares `price_cleaned` `p`
      against its own bounds. */
  predicate BandSelects(v: int, p: int): (b: bool)
    ensures b <==> InBand(Band(v), p)
  {
    if v <= 500 then p <= 500
    else if v <= 1000 then 500 < p && p <= 1000
    else if v <= 1500 then 1000 < p && p <= 1500
    else if v <= 2000 then 1500 < p && p <= 2000
    else if v <= 2500 then 2000 < p && p <= 2500
    else if v <= 3000 then 2500 < p && p <= 3000
    else p > 3000
  }

  /** Price search is band selection: a row is chosen exactly when its price
      falls in the same band as the query price. */
  lemma {:induction false} BandSelectsSameBand(v: int, p: int)
    ensures BandSelects(v, p) <==> Band(v) == Band(p)
  {
    BandsPartition(Band(v), p);
  }

  // ---------------------------------------------------------------------------
  // Mode dispatch

  /** What a search mode selects, with the normalised query already applied. */
  datatype Criterion =
    | NameHas(needle: string)
    | CuisineHas(needle: string)
    | RatingsHas(needle: string)
    | PriceBandOf(query: int)

  /** The mode dispatch of app.py; None where the source builds an empty
      frame (an unknown mode, or a price query that `int()` rejects). */
  function Select(q: string, mode: string): (c: Option<Criterion>)
    ensures c.None? <==> mode !in KnownModes || (mode == PriceMode && ParseInt(q).None?)
    ensures c.Some? ==> match c.value
      case NameHas(n) => mode == NameMode && n == q
      case CuisineHas(n) => mode == CuisineMode && n == q
      case RatingsHas(n) => mode == RatingsMode && n == q
      case PriceBandOf(v) => mode == PriceMode && ParseInt(q) == Some(v)
  {
    if mode == NameMode then Some(NameHas(q))
    else if mode == CuisineMode then Some(CuisineHas(q))
    else if mode == PriceMode then
      match ParseInt(q)
      case None => None
      case Some(v) => Some(PriceBandOf(v))
    else if mode == RatingsMode then Some(RatingsHas(q))
    else None
  }

  /** Whether a row passes the mode's test. A missing name or cuisine never
      matches (`na=False`); a missing rating is the text "nan". */
  predicate Selects(c: Criterion, row: Row): (b: bool)
    ensures b && c.NameHas? ==> row.name.Some?
    ensures b && c.CuisineHas? ==> row.cuisine.Some?
  {
    match c
    case NameHas(n) => row.name.Some? && IsSubstring(n, Lower(row.name.value))
    case CuisineHas(n) => row.cuisine.Some? && IsSubstring(n, Lower(row.cuisine.value))
    case RatingsHas(n) => IsSubstring(n, CellText(row.ratings))
    case PriceBandOf(v) => BandSelects(v, PriceCleaned(row.price))
  }

  /** What the tests mean: a text test passes when the needle occurs at some
      offset of the (lower-cased) field, and the price test passes when the
      row's price lies in the query's band. */
  lemma SelectsMeaning(c: Criterion, row: Row)
    ensures c.NameHas? ==>
      (Selects(c, row) <==> row.name.Some? && Occurs(c.needle, Lower(row.name.value)))
    ensures c.CuisineHas? ==>
      (Selects(c, row) <==> row.cuisine.Some? && Occurs(c.needle, Lower(row.cuisine.value)))
    ensures c.RatingsHas? ==> (Selects(c, row) <==> Occurs(c.needle, CellText(row.ratings)))
    ensures c.PriceBandOf? ==> (Selects(c, row) <==> Band(PriceCleaned(row.price)) == Band(c.query))
  {
    match c
    case NameHas(n) =>
      if row.name.Some? { SubstringAtOffset(n, Lower(row.name.value)); }
    case CuisineHas(n) =>
      if row.cuisine.Some? { SubstringAtOffset(n, Lower(row.cuisine.value)); }
    case RatingsHas(n) =>
      SubstringAtOffset(n, CellText(row.ratings));
    case PriceBandOf(v) =>
      BandSelectsSameBand(v, PriceCleaned(row.price));
  }

  /** Characters with a meaning in a regular expression. */
  predicate IsRegexMeta(c: char) {
    c in ".^$*+?{}[]\\|()"
  }

  /** `str.contains` searches for a regular expression; the model covers the
      queries where that is the same as searching for the literal text. */
  predicate LiteralQuery(query: Option<string>, mode: string) {
    query.Some? && (mode == NameMode || mode == CuisineMode || mode == RatingsMode) ==>
      forall i :: 0 <= i < |Normalize(query.value)| ==> !IsRegexMeta(Normalize(query.value)[i])
  }

  /** Everything that happens before rows are filtered: None stands for any
      of the exceptions the outer handler turns into an empty list. */
  function Plan(t: Table, query: Option<string>, mode: string): (c: Option<Criterion>)
    ensures c.None? <==>
      || query.None?
      || !(ProjectionColumns <= t.columns)
      || PriceOverflows(t.rows)
      || mode !in KnownModes
      || (mode == PriceMode && ParseInt(Normalize(query.value)).None?)
    ensures c.Some? ==> c == Select(Normalize(query.value), mode)
  {
    if query.None? then None  // None.strip() raises AttributeError
    else if Price in t.columns && PriceOverflows(t.rows) then None  // astype(int) overflows
    else
      match Select(Normalize(query.value), mode)
      case None => None  // selecting columns of an empty frame raises KeyError
      // The mode's own column is one of the projected ones, so a missing
      // column always surfaces as a KeyError, in the branch or in the projection.
      case Some(c) => if ProjectionColumns <= t.columns then Some(c) else None
  }

  // ---------------------------------------------------------------------------
  // Filtering

  /** The rows a criterion selects, in source order (`df[mask]`). */
  function Filter(rows: seq<Row>, c: Criterion): (r: seq<Row>)
    ensures |r| <= |rows|
    ensures forall k :: 0 <= k < |r| ==> Selects(c, r[k])
    ensures forall k :: 0 <= k < |r| ==> r[k] in rows
  {
    if |rows| == 0 then []
    else (if Selects(c, rows[0]) then [rows[0]] else []) + Filter(rows[1..], c)
  }

  /** The indices, from `i` on, of the rows a criterion selects. */
  function Positions(rows: seq<Row>, c: Criterion, i: nat): (p: seq<nat>)
    requires i <= |rows|
    ensures forall k :: 0 <= k < |p| ==> i <= p[k] < |rows| && Selects(c, rows[p[k]])
    ensures forall a, b :: 0 <= a < b < |p| ==> p[a] < p[b]
    decreases |rows| - i
  {
    if i == |rows| then []
    else (if Selects(c, rows[i]) then [i] else []) + Positions(rows, c, i + 1)
  }

  /** Every selected index from `i` on is listed. */
  lemma {:induction false} PositionsComplete(rows: seq<Row>, c: Criterion, i: nat)
    requires i <= |rows|
    ensures forall j :: i <= j < |rows| && Selects(c, rows[j]) ==> j in Positions(rows, c, i)
    decreases |rows| - i
  {
    if i < |rows| {
      PositionsComplete(rows, c, i + 1);
      var tail := Positions(rows, c, i + 1);
      assert Positions(rows, c, i) == (if Selects(c, rows[i]) then [i] else []) + tail;
      forall j | i < j < |rows| && Selects(c, rows[j])
        ensures j in Positions(rows, c, i)
      {
        assert j in tail;
      }
    }
  }

  /** Filtering keeps exactly the rows at the selected indices, in order. */
  lemma {:induction false} FilterFollowsPositions(rows: seq<Row>, c: Criterion, i: nat)
    requires i <= |rows|
    ensures |Filter(rows[i..], c)| == |Positions(rows, c, i)|
    ensures forall k :: 0 <= k < |Positions(rows, c, i)| ==>
      Filter(rows[i..], c)[k] == rows[Positions(rows, c, i)[k]]
    decreases |rows| - i
  {
    if i < |rows| {
      FilterFollowsPositions(rows, c, i + 1);
      FilterStep(rows, c, i);
      if Selects(c, rows[i]) {
        ConsKeepsCorrespondence(rows, i, Filter(rows[i + 1..], c), Positions(rows, c, i + 1));
      }
    }
  }

  /** Filtering the rows from `i` on starts with row `i` when it passes. */
  lemma FilterStep(rows: seq<Row>, c: Criterion, i: nat)
    requires i < |rows|
    ensures Filter(rows[i..], c) ==
      (if Selects(c, rows[i]) then [rows[i]] else []) + Filter(rows[i + 1..], c)
  {
    assert rows[i..][1..] == rows[i + 1..];
  }

  /** Putting row `j` in front of the rows and `j` in front of the indices
      keeps each row paired with its index. */
  lemma ConsKeepsCorrespondence(rows: seq<Row>, j: nat, f: seq<Row>, p: seq<nat>)
    requires j < |rows|
    requires |f| == |p| && forall k :: 0 <= k < |p| ==> p[k] < |rows| && f[k] == rows[p[k]]
    ensures forall k :: 0 <= k < |p| + 1 ==>
      ([j] + p)[k] < |rows| && ([rows[j]] + f)[k] == rows[([j] + p)[k]]
  {
  }

  /** A criterion every row passes keeps every row. */
  lemma {:induction false} FilterKeepsAll(rows: seq<Row>, c: Criterion)
    requires forall j :: 0 <= j < |rows| ==> Selects(c, rows[j])
    ensures Filter(rows, c) == rows
  {
    if |rows| > 0 {
      var rest := rows[1..];
      assert forall j :: 0 <= j < |rest| ==> rest[j] == rows[j + 1];
      FilterKeepsAll(rest, c);
      assert Selects(c, rows[0]);
      assert Filter(rows, c) == [rows[0]] + Filter(rest, c);
      assert rows == [rows[0]] + rest;
    }
  }

  // ---------------------------------------------------------------------------
  // The search

  /** `filtered[['link','name','ratings','cuisine','price']].head(10)`. */
  function TopProjected(hits: seq<Row>): (r: seq<Recommendation>)
    ensures |r| == Min(MaxResults, |hits|)
    ensures forall k :: 0 <= k < |r| ==> r[k] == Project(hits[k])
  {
    seq(Min(MaxResults, |hits|), k requires 0 <= k < Min(MaxResults, |hits|) => Project(hits[k]))
  }

  /** `get_recommendations(query, search_by)` over an already loaded table. */
  function GetRecommendations(t: Table, query: Option<string>, mode: string): (r: seq<Recommendation>)
    requires LiteralQuery(query, mode)
    ensures |r| <= MaxResults
    ensures Plan(t, query, mode).None? ==> r == []
  {
    match Plan(t, query, mode)
    case None => []
    case Some(c) => TopProjected(Filter(t.rows, c))
  }

  /** The `/index` route: an empty query string is not searched at all. */
  function IndexResults(t: Table, query: string, mode: string): (r: seq<Recommendation>)
    requires LiteralQuery(Some(query), mode)
    ensures |r| <= MaxResults
    ensures query == [] ==> r == []
    ensures query != [] ==> r == GetRecommendations(t, Some(query), mode)
  {
    if query == [] then [] else GetRecommendations(t, Some(query), mode)
  }

  // ---------------------------------------------------------------------------
  // Properties of the search

  /** `head(10)` never looks past the tenth hit: hits after it do not
      change the result. */
  lemma TopProjectedIgnoresLaterHits(hits: seq<Row>, more: seq<Row>)
    requires |hits| >= MaxResults
    ensures TopProjected(hits + more) == TopProjected(hits)
  {
    var a, b := TopProjected(hits + more), TopProjected(hits);
    assert forall k :: 0 <= k < |a| ==> a[k] == b[k];
  }

  /** Filtering gives nothing exactly when no row passes. */
  lemma {:induction false} FilterEmpty(rows: seq<Row>, c: Criterion)
    ensures Filter(rows, c) == [] <==> forall j :: 0 <= j < |rows| ==> !Selects(c, rows[j])
  {
    if |rows| > 0 {
      var rest := rows[1..];
      FilterEmpty(rest, c);
      assert Filter(rows, c) == (if Selects(c, rows[0]) then [rows[0]] else []) + Filter(rest, c);
      if forall j :: 0 <= j < |rows| ==> !Selects(c, rows[j]) {
        forall j | 0 <= j < |rest|
          ensures !Selects(c, rest[j])
        {
          assert rest[j] == rows[j + 1];
        }
      } else {
        var j :| 0 <= j < |rows| && Selects(c, rows[j]);
        if j > 0 {
          assert rest[j - 1] == rows[j];
        }
      }
    }
  }

  /** Once the plan succeeds, the result is the first ten filtered rows, projected. */
  lemma SearchIsTopOfFilter(t: Table, query: Option<string>, mode: string, c: Criterion)
    requires LiteralQuery(query, mode)
    requires Plan(t, query, mode) == Some(c)
    ensures GetRecommendations(t, query, mode) == TopProjected(Filter(t.rows, c))
  {
  }

  /** The result is the projection of the first (at most ten) selected rows,
      in source order. */
  lemma {:induction false} FirstMatchesInSourceOrder(t: Table, query: Option<string>, mode: string)
    requires LiteralQuery(query, mode)
    requires Plan(t, query, mode).Some?
    ensures |GetRecommendations(t, query, mode)| ==
            Min(MaxResults, |Positions(t.rows, Plan(t, query, mode).value, 0)|)
    ensures forall k :: 0 <= k < |GetRecommendations(t, query, mode)| ==>
      GetRecommendations(t, query, mode)[k] ==
      Project(t.rows[Positions(t.rows, Plan(t, query, mode).value, 0)[k]])
  {
    var c := Plan(t, query, mode).value;
    var hits := Filter(t.rows, c);
    var r := GetRecommendations(t, query, mode);
    var p := Positions(t.rows, c, 0);
    SearchIsTopOfFilter(t, query, mode, c);
    assert t.rows[0..] == t.rows;
    FilterFollowsPositions(t.rows, c, 0);
    assert |hits| == |p|;
    forall k | 0 <= k < |r|
      ensures r[k] == Project(t.rows[p[k]])
    {
      assert r[k] == Project(hits[k]);
    }
  }

  /** No selected row is skipped: when fewer than ten rows are selected every
      one of them is returned, and otherwise every selected row up to the
      tenth selected one is. */
  lemma {:induction false} NoMatchSkipped(t: Table, query: Option<string>, mode: string, c: Criterion, j: int)
    requires LiteralQuery(query, mode)
    requires Plan(t, query, mode) == Some(c)
    requires 0 <= j < |t.rows| && Selects(c, t.rows[j])
    requires |Positions(t.rows, c, 0)| < MaxResults || j <= Positions(t.rows, c, 0)[MaxResults - 1]
    ensures exists k :: (0 <= k < |Positions(t.rows, c, 0)| &&
      k < |GetRecommendations(t, query, mode)| &&
      Positions(t.rows, c, 0)[k] == j &&
      GetRecommendations(t, query, mode)[k] == Project(t.rows[j]))
  {
    var p := Positions(t.rows, c, 0);
    var r := GetRecommendations(t, query, mode);
    FirstMatchesInSourceOrder(t, query, mode);
    PositionsComplete(t.rows, c, 0);
    assert j in p;
    var m :| 0 <= m < |p| && p[m] == j;
    IndexWithinCutoff(p, m);
    assert r[m] == Project(t.rows[j]);
  }

  /** In an increasing index list cut after ten entries, an index at or
      before the tenth survives the cut. */
  lemma IndexWithinCutoff(p: seq<nat>, m: nat)
    requires forall a, b :: 0 <= a < b < |p| ==> p[a] < p[b]
    requires m < |p|
    requires |p| < MaxResults || p[m] <= p[MaxResults - 1]
    ensures m < Min(MaxResults, |p|)
  {
  }

  /** Name search returns only rows whose lower-cased name contains the
      normalised query. */
  lemma NameResultsContainQuery(t: Table, query: string)
    requires LiteralQuery(Some(query), NameMode)
    ensures forall k :: 0 <= k < |GetRecommendations(t, Some(query), NameMode)| ==>
      var r := GetRecommendations(t, Some(query), NameMode)[k];
      r.name.Some? && IsSubstring(Normalize(query), Lower(r.name.value))
  {
  }

  /** Cuisine search returns only rows whose lower-cased cuisine contains
      the normalised query. */
  lemma CuisineResultsContainQuery(t: Table, query: string)
    requires LiteralQuery(Some(query), CuisineMode)
    ensures forall k :: 0 <= k < |GetRecommendations(t, Some(query), CuisineMode)| ==>
      var r := GetRecommendations(t, Some(query), CuisineMode)[k];
      r.cuisine.Some? && IsSubstring(Normalize(query), Lower(r.cuisine.value))
  {
  }

  /** Ratings search is a text search in the printed rating, not a numeric
      comparison. */
  lemma RatingsResultsContainQuery(t: Table, query: string)
    requires LiteralQuery(Some(query), RatingsMode)
    ensures forall k :: 0 <= k < |GetRecommendations(t, Some(query), RatingsMode)| ==>
      IsSubstring(Normalize(query), CellText(GetRecommendations(t, Some(query), RatingsMode)[k].ratings))
  {
  }

  /** A missing rating prints as "nan", so the query "NaN" finds it. */
  lemma MissingRatingMatchesNan(row: Row)
    requires row.ratings.None?
    ensures Select(Normalize("NaN"), RatingsMode) == Some(RatingsHas("nan"))
    ensures Selects(RatingsHas("nan"), row)
  {
    NormalizeNaN();
    assert IsPrefix("nan", CellText(row.ratings));
  }

  lemma NormalizeNaN()
    ensures Normalize("NaN") == "nan"
  {
    StripKeepsTrimmed("NaN");
    LowerNaN();
  }

  lemma LowerNaN()
    ensures Lower("NaN") == "nan"
  {
    var l := Lower("NaN");
    assert l[0] == 'n' && l[1] == 'a' && l[2] == 'n';
  }

  /** Price search returns only rows in the same band as the query price. */
  lemma {:induction false} PriceResultsShareQueryBand(t: Table, query: string, v: int)
    requires ParseInt(Normalize(query)) == Some(v)
    ensures forall k :: 0 <= k < |GetRecommendations(t, Some(query), PriceMode)| ==>
      Band(PriceCleaned(GetRecommendations(t, Some(query), PriceMode)[k].price)) == Band(v)
  {
    var r := GetRecommendations(t, Some(query), PriceMode);
    if Plan(t, Some(query), PriceMode).Some? {
      var hits := Filter(t.rows, PriceBandOf(v));
      SearchIsTopOfFilter(t, Some(query), PriceMode, PriceBandOf(v));
      assert r == TopProjected(hits);
      forall k | 0 <= k < |r|
        ensures Band(PriceCleaned(r[k].price)) == Band(v)
      {
        assert r[k].price == hits[k].price;
        assert Selects(PriceBandOf(v), hits[k]);
        SelectsMeaning(PriceBandOf(v), hits[k]);
      }
    }
  }

  /** A search mode outside the four known ones gives nothing. */
  lemma UnknownModeIsEmpty(t: Table, query: Option<string>, mode: string)
    requires mode !in KnownModes
    ensures GetRecommendations(t, query, mode) == []
  {
  }

  /** The routes' default `search_by` value "names" is not a mode, so a
      search that does not choose one returns nothing. */
  lemma RouteDefaultIsEmpty(t: Table, query: Option<string>)
    ensures GetRecommendations(t, query, RouteDefaultMode) == []
  {
    assert RouteDefaultMode !in KnownModes;
  }

  /** A price query that is not an integer gives nothing. */
  lemma NonIntegerPriceIsEmpty(t: Table, query: string)
    requires ParseInt(Normalize(query)).None?
    ensures GetRecommendations(t, Some(query), PriceMode) == []
  {
  }

  /** "abc" is such a query. */
  lemma AbcIsNotAnInteger()
    ensures ParseInt(Normalize("abc")).None?
  {
    assert "abc"[0] == 'a';
    DigitlessQueryIsNotInteger("abc");
  }

  /** Without all five projected columns every search gives nothing. */
  lemma MissingColumnIsEmpty(t: Table, query: Option<string>, mode: string, col: Column)
    requires LiteralQuery(query, mode)
    requires col !in t.columns
    ensures GetRecommendations(t, query, mode) == []
  {
  }

  /** A price whose digits do not fit in 64 bits breaks every search. */
  lemma OversizedPriceIsEmpty(t: Table, query: Option<string>, mode: string, j: int)
    requires LiteralQuery(query, mode)
    requires 0 <= j < |t.rows| && PriceCleaned(t.rows[j].price) > Int64Max
    ensures GetRecommendations(t, query, mode) == []
  {
  }

  /** With the query "700" the price search picks the band (500, 1000]. */
  lemma {:induction false} Price700SelectsSecondBand(t: Table, row: Row)
    requires ProjectionColumns <= t.columns && !PriceOverflows(t.rows)
    ensures Plan(t, Some("700"), PriceMode) == Some(PriceBandOf(700))
    ensures Selects(PriceBandOf(700), row) <==> 500 < PriceCleaned(row.price) <= 1000
  {
    NormalizeKeepsPlainText("700");
    Parse700();
  }

  lemma Parse700()
    ensures ParseInt("700") == Some(700)
  {
    assert ShowNat(700) == "700" by {
      assert ShowNat(7) == "7";
      assert ShowNat(70) == "70";
    }
    ParseShowNat(700);
  }

  /** The field a blank name or cuisine search tests for presence. */
  predicate HasSearchedField(mode: string, row: Row) {
    if mode == CuisineMode then row.cuisine.Some? else row.name.Some?
  }

  /** A blank query (empty after strip) matches every row whose searched
      field is present, and no other. */
  lemma BlankQueryMatchesPresentField(query: string, mode: string, row: Row)
    requires AllSpace(query)
    requires mode == NameMode || mode == CuisineMode
    ensures Select(Normalize(query), mode).Some?
    ensures Selects(Select(Normalize(query), mode).value, row) <==> HasSearchedField(mode, row)
  {
    if row.name.Some? { EmptyIsSubstring(Lower(row.name.value)); }
    if row.cuisine.Some? { EmptyIsSubstring(Lower(row.cuisine.value)); }
  }

  /** On a table where every row has the searched field, a blank name or
      cuisine search returns the first ten rows. */
  lemma {:induction false} BlankQueryReturnsFirstRows(t: Table, query: string, mode: string)
    requires AllSpace(query)
    requires mode == NameMode || mode == CuisineMode
    requires ProjectionColumns <= t.columns && !PriceOverflows(t.rows)
    requires forall j :: 0 <= j < |t.rows| ==> HasSearchedField(mode, t.rows[j])
    ensures |GetRecommendations(t, Some(query), mode)| == Min(MaxResults, |t.rows|)
    ensures forall k :: 0 <= k < |GetRecommendations(t, Some(query), mode)| ==>
      GetRecommendations(t, Some(query), mode)[k] == Project(t.rows[k])
  {
    var c := Select(Normalize(query), mode).value;
    forall j | 0 <= j < |t.rows|
      ensures Selects(c, t.rows[j])
    {
      BlankQueryMatchesPresentField(query, mode, t.rows[j]);
    }
    FilterKeepsAll(t.rows, c);
    SearchIsTopOfFilter(t, Some(query), mode, c);
  }

  /** On a table the search can use, the `/index` route gives nothing for the
      empty query in name or cuisine mode, while the search itself, given the
      same empty query, finds something exactly when some row has the
      searched field. */
  lemma IndexHidesEmptyQuery(t: Table, mode: string)
    requires ProjectionColumns <= t.columns && !PriceOverflows(t.rows)
    requires mode == NameMode || mode == CuisineMode
    ensures IndexResults(t, "", mode) == []
    ensures GetRecommendations(t, Some(""), mode) != [] <==>
      exists j :: 0 <= j < |t.rows| && HasSearchedField(mode, t.rows[j])
  {
    assert AllSpace("");
    BlankSearchFindsPresentField(t, "", mode);
  }

  /** A blank name or cuisine search finds something exactly when some row
      has the searched field. */
  lemma {:induction false} BlankSearchFindsPresentField(t: Table, query: string, mode: string)
    requires AllSpace(query)
    requires mode == NameMode || mode == CuisineMode
    requires ProjectionColumns <= t.columns && !PriceOverflows(t.rows)
    ensures GetRecommendations(t, Some(query), mode) != [] <==>
      exists j :: 0 <= j < |t.rows| && HasSearchedField(mode, t.rows[j])
  {
    var c := Select(Normalize(query), mode).value;
    forall j | 0 <= j < |t.rows|
      ensures Selects(c, t.rows[j]) <==> HasSearchedField(mode, t.rows[j])
    {
      BlankQueryMatchesPresentField(query, mode, t.rows[j]);
    }
    FilterEmpty(t.rows, c);
    SearchIsTopOfFilter(t, Some(query), mode, c);
    assert |TopProjected(Filter(t.rows, c))| == Min(MaxResults, |Filter(t.rows, c)|);
  }

  /** The `/index` route returns nothing for the empty query, while a query
      of one space is searched and matches every named row. */
  lemma {:induction false} IndexEmptyVersusBlank(t: Table)
    requires ProjectionColumns <= t.columns && !PriceOverflows(t.rows)
    requires |t.rows| > 0 && forall j :: 0 <= j < |t.rows| ==> t.rows[j].name.Some?
    ensures IndexResults(t, "", NameMode) == []
    ensures IndexResults(t, " ", NameMode) != []
  {
    assert AllSpace(" ");
    BlankQueryReturnsFirstRows(t, " ", NameMode);
  }
}
