/** The restaurant dataset as the recommender sees it after loading the CSV:
    the columns that are present, the rows in file order, and the derived
    `price_cleaned` value of each row. */
module Dataset {
  import opened Wrappers
  import opened Text

  /** The five columns the recommender reads and returns. */
  datatype Column = Link | Name | Ratings | Cuisine | Price

  /** One CSV row, reduced to the five columns the recommender reads. A
      `None` cell is a missing (NaN) value. */
  datatype Row = Row(
    name: Option<string>,
    cuisine: Option<string>,
    price: Option<string>,
    ratings: Option<string>,
    link: Option<string>)

  /** A loaded CSV: the subset of the five known columns that the header
      names, and the rows that parsed, in file order. */
  datatype Table = Table(columns: set<Column>, rows: seq<Row>)

  /** One returned record: exactly the fields link, name, ratings, cuisine, price. */
  datatype Recommendation = Recommendation(
    link: Option<string>,
    name: Option<string>,
    ratings: Option<string>,
    cuisine: Option<string>,
    price: Option<string>)

  /** The columns the final projection selects; a missing one is a KeyError. */
  const ProjectionColumns: set<Column> := {Link, Name, Ratings, Cuisine, Price}

  /** The largest value `astype(int)` can hold (a 64-bit signed integer). */
  const Int64Max: int := 0x7FFF_FFFF_FFFF_FFFF

  /** The projection to the five returned fields. */
  function Project(row: Row): (r: Recommendation)
  {
    Recommendation(row.link, row.name, row.ratings, row.cuisine, row.price)
  }

  /** `astype(str)` of a cell: a present text prints as itself and a missing
      value as "nan", so printing loses exactly the difference between a
      missing cell and the text "nan". */
  function CellText(cell: Option<string>): (s: string)
    ensures cell.Some? ==> s == cell.value
    ensures s == "nan" <==> cell == None || cell == Some("nan")
  {
    match cell
    case Some(s) => s
    case None => "nan"
  }

  /** `price_cleaned`: the digits of the price text read as a number, an
      empty digit string counting as 0. */
  function PriceCleaned(price: Option<string>): (v: int)
    ensures v >= 0
    ensures NoDigits(CellText(price)) ==> v == 0
    ensures v < Pow10(|DigitsOnly(CellText(price))|)
  {
    var d := DigitsOnly(CellText(price));
    if d == [] then 0 else DigitsValue(d)
  }

  /** A missing price is treated as price 0. */
  lemma MissingPriceIsZero()
    ensures PriceCleaned(None) == 0
  {
    assert NoDigits("nan");
  }

  /** Currency symbols and words around a single number do not change its
      value: "Rs. 800 for two" is 800. */
  lemma {:induction false} PriceCleanedOfDecorated(pre: string, n: nat, post: string)
    requires NoDigits(pre) && NoDigits(post)
    ensures PriceCleaned(Some(pre + ShowNat(n) + post)) == n
  {
    var d := ShowNat(n);
    DigitsOnlyAround(pre, d, post);
    DigitsOnlyOfDigits(d);
    DigitsValueShowNat(n);
  }

  /** The value of a price text split anywhere: the digits of the left part
      are shifted past those of the right part, so "2,050" reads as 2050 and
      "1,00,000" as 100000. */
  lemma PriceCleanedAppend(x: string, y: string)
    ensures PriceCleaned(Some(x + y)) ==
            PriceCleaned(Some(x)) * Pow10(|DigitsOnly(y)|) + PriceCleaned(Some(y))
  {
    DigitsOnlyAppend(x, y);
    DigitsValueAppend(DigitsOnly(x), DigitsOnly(y));
  }

  /** A one-character price text is worth its digit, or 0 for any other
      character. With `PriceCleanedAppend` this fixes the value of every text. */
  lemma PriceCleanedOfChar(c: char)
    ensures PriceCleaned(Some([c])) == if IsDigit(c) then DigitValue(c) else 0
  {
    assert [c][1..] == [];
    if IsDigit(c) {
      assert DigitsOnly([c]) == [c];
      assert [c][..0] == [];
    }
  }

  /** Separators inside a number are dropped, and a price range such as
      "500-1000" becomes one large number. */
  lemma {:induction false} PriceCleanedJoinsDigitGroups(a: nat, sep: string, b: nat)
    requires NoDigits(sep)
    ensures PriceCleaned(Some(ShowNat(a) + sep + ShowNat(b))) ==
            a * Pow10(|ShowNat(b)|) + b
  {
    var da, db := ShowNat(a), ShowNat(b);
    DigitsOnlyAroundSeparator(da, sep, db);
    DigitsValueAppend(da, db);
    DigitsValueShowNat(a);
    DigitsValueShowNat(b);
    assert PriceCleaned(Some(da + sep + db)) == DigitsValue(da + db);
  }

  /** Some row's `price_cleaned` does not fit in 64 bits, so `astype(int)`
      raises OverflowError. That takes a price text with at least 19 digits. */
  predicate PriceOverflows(rows: seq<Row>): (b: bool)
    ensures b ==> exists j :: 0 <= j < |rows| && |DigitsOnly(CellText(rows[j].price))| >= 19
  {
    ShortPricesFit();
    exists j :: 0 <= j < |rows| && PriceCleaned(rows[j].price) > Int64Max
  }

  /** A price text with at most 18 digits has a `price_cleaned` that fits in
      64 bits. */
  lemma ShortPricesFit()
    ensures forall p: Option<string> :: |DigitsOnly(CellText(p))| <= 18 ==> PriceCleaned(p) <= Int64Max
  {
    Pow10Eighteen();
    forall p: Option<string> | |DigitsOnly(CellText(p))| <= 18
      ensures PriceCleaned(p) <= Int64Max
    {
      Pow10Monotone(|DigitsOnly(CellText(p))|, 18);
    }
  }

  lemma Pow10Eighteen()
    ensures Pow10(18) == 1_000_000_000_000_000_000
  {
    assert Pow10(3) == 1_000;
    assert Pow10(6) == 1_000_000;
    assert Pow10(9) == 1_000_000_000;
    assert Pow10(12) == 1_000_000_000_000;
    assert Pow10(15) == 1_000_000_000_000_000;
  }

  lemma {:induction false} Pow10Monotone(a: nat, b: nat)
    requires a <= b
    ensures Pow10(a) <= Pow10(b)
    decreases b
  {
    if a < b {
      Pow10Monotone(a, b - 1);
    }
  }
}
