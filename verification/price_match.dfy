/** `exact_price_match(query, price_value)`: compare a price query with a
    price text, either exactly or, for a "low-high" price range, by range
    membership. */
module PriceMatch {
  import opened Wrappers
  import opened Text

  /** The range branch: the two digit runs of the price text are the bounds.
      Any other number of runs, or a query `int()` rejects, raises ValueError,
      which the handler turns into False. */
  predicate InRange(q: string, p: string): (b: bool)
    ensures b ==> |DigitRuns(p)| == 2 && ParseInt(q).Some?
    ensures b ==> DigitsValue(DigitRuns(p)[0]) <= DigitsValue(DigitRuns(p)[1])
  {
    var runs := DigitRuns(p);
    if |runs| != 2 then false
    else
      match ParseInt(q)
      case None => false
      case Some(v) => DigitsValue(runs[0]) <= v <= DigitsValue(runs[1])
  }

  /** `exact_price_match` as written: the price text is first reduced to its
      digits, and only then inspected for a '-'. A blank query matches only a
      price without digits; any other match needs a query that `int()`
      accepts. */
  predicate ExactPriceMatch(query: string, priceValue: string): (b: bool)
    ensures b ==> (Strip(query) == [] <==> NoDigits(priceValue))
    ensures b && Strip(query) != [] ==> ParseInt(Strip(query)).Some?
  {
    var p := DigitsOnly(priceValue);
    var q := Strip(query);
    if '-' in p then InRange(q, p) else q == p
  }

  /** Reducing a text to its digits removes every '-'. */
  lemma DigitsOnlyHasNoHyphen(s: string)
    ensures '-' !in DigitsOnly(s)
  {
  }

  /** As written, the range branch never runs: the match is exactly the
      equality of the stripped query with the digits of the price. */
  lemma {:induction false} ExactPriceMatchIsDigitEquality(query: string, priceValue: string)
    ensures ExactPriceMatch(query, priceValue) <==> Strip(query) == DigitsOnly(priceValue)
  {
    DigitsOnlyHasNoHyphen(priceValue);
  }

  /** A larger number never has a shorter rendering. */
  lemma {:induction false} ShowNatLengthMonotone(n: nat, m: nat)
    requires n <= m
    ensures |ShowNat(n)| <= |ShowNat(m)|
  {
    if n >= 10 {
      ShowNatLengthMonotone(n / 10, m / 10);
    }
  }

  /** As written, no number is ever matched against a range price "a-b" it
      lies in (nor against any range whose upper end is at least the number). */
  lemma {:induction false} RangePriceNeverMatches(a: nat, b: nat, n: nat)
    requires n <= b
    ensures !ExactPriceMatch(ShowNat(n), ShowNat(a) + "-" + ShowNat(b))
  {
    ShowNatIsStripped(n);
    ShowNatLengthMonotone(n, b);
    assert NoDigits("-");
    ShorterQueryNeverMatchesRange(ShowNat(n), ShowNat(a), "-", ShowNat(b));
  }

  /** The same holds with any text without digits around the range, as in
      "Rs. 500-1000 for two". */
  lemma {:induction false} DecoratedRangePriceNeverMatches(pre: string, a: nat, b: nat, post: string, n: nat)
    requires NoDigits(pre) && NoDigits(post)
    requires n <= b
    ensures !ExactPriceMatch(ShowNat(n), pre + ShowNat(a) + "-" + ShowNat(b) + post)
  {
    var x := ShowNat(a) + "-" + ShowNat(b);
    assert pre + ShowNat(a) + "-" + ShowNat(b) + post == pre + x + post;
    DigitsOnlyAround(pre, x, post);
    ExactPriceMatchIsDigitEquality(ShowNat(n), pre + x + post);
    ExactPriceMatchIsDigitEquality(ShowNat(n), x);
    RangePriceNeverMatches(a, b, n);
  }

  /** A rendered number has no surrounding whitespace. */
  lemma ShowNatIsStripped(n: nat)
    ensures Strip(ShowNat(n)) == ShowNat(n)
  {
    var s := ShowNat(n);
    assert IsDigit(s[0]) && IsDigit(s[|s| - 1]);
    StripKeepsTrimmed(s);
  }

  /** A stripped query shorter than the two bounds together never equals
      their concatenated digits. */
  lemma {:induction false} ShorterQueryNeverMatchesRange(q: string, d: string, sep: string, e: string)
    requires AllDigits(d) && AllDigits(e) && NoDigits(sep) && |d| > 0
    requires Strip(q) == q && |q| <= |e|
    ensures !ExactPriceMatch(q, d + sep + e)
  {
    ExactPriceMatchIsDigitEquality(q, d + sep + e);
    DigitsOnlyAroundSeparator(d, sep, e);
    assert |DigitsOnly(d + sep + e)| == |d| + |e| > |q|;
  }

  /** The concrete case: "700" does not match the price "500-1000". */
  lemma RangeTextNeverMatches()
    ensures !ExactPriceMatch("700", "500-1000")
  {
    assert ShowNat(700) == "700" by {
      assert ShowNat(7) == "7";
      assert ShowNat(70) == "70";
    }
    assert ShowNat(500) == "500" by {
      assert ShowNat(5) == "5";
      assert ShowNat(50) == "50";
    }
    assert ShowNat(1000) == "1000" by {
      assert ShowNat(1) == "1";
      assert ShowNat(10) == "10";
      assert ShowNat(100) == "100";
    }
    assert "500-1000" == ShowNat(500) + "-" + ShowNat(1000);
    RangePriceNeverMatches(500, 1000, 700);
  }

  // ---------------------------------------------------------------------------
  // The range-aware variant

  /** A digit or a hyphen: the characters a price range is written with. */
  predicate IsPriceChar(c: char) {
    IsDigit(c) || c == '-'
  }

  predicate NoPriceChars(s: string) {
    forall i :: 0 <= i < |s| ==> !IsPriceChar(s[i])
  }

  /** `re.sub(r'[^\d-]', '', s)`: the digits and hyphens of `s`, in order. */
  function KeepPriceChars(s: string): (r: string)
    ensures |r| <= |s|
    ensures forall i :: 0 <= i < |r| ==> IsPriceChar(r[i])
    ensures r == [] <==> NoPriceChars(s)
  {
    if |s| == 0 then []
    else (if IsPriceChar(s[0]) then [s[0]] else []) + KeepPriceChars(s[1..])
  }

  /** Keeping digits and hyphens distributes over concatenation, so the kept
      characters stay in order. */
  lemma {:induction false} KeepPriceCharsAppend(a: string, b: string)
    ensures KeepPriceChars(a + b) == KeepPriceChars(a) + KeepPriceChars(b)
    decreases |a|
  {
    if |a| == 0 {
      assert a + b == b;
    } else {
      assert (a + b)[0] == a[0];
      assert (a + b)[1..] == a[1..] + b;
      KeepPriceCharsAppend(a[1..], b);
      var h := if IsPriceChar(a[0]) then [a[0]] else [];
      assert KeepPriceChars(a + b) == h + KeepPriceChars(a[1..] + b);
      assert KeepPriceChars(a) == h + KeepPriceChars(a[1..]);
    }
  }

  /** On a text without hyphens, keeping digits and hyphens keeps the digits. */
  lemma {:induction false} KeepPriceCharsWithoutHyphen(s: string)
    requires '-' !in s
    ensures KeepPriceChars(s) == DigitsOnly(s)
  {
    if |s| > 0 {
      assert '-' !in s[1..];
      KeepPriceCharsWithoutHyphen(s[1..]);
    }
  }

  /** A text of digits and hyphens only is kept whole. */
  lemma {:induction false} KeepPriceCharsKeepsPriceText(s: string)
    requires forall i :: 0 <= i < |s| ==> IsPriceChar(s[i])
    ensures KeepPriceChars(s) == s
  {
    if |s| > 0 {
      KeepPriceCharsKeepsPriceText(s[1..]);
      assert s == [s[0]] + s[1..];
    }
  }

  /** `exact_price_match` with the hyphen kept, so that a price range is
      compared by membership. */
  predicate RangeAwarePriceMatch(query: string, priceValue: string) {
    var p := KeepPriceChars(priceValue);
    var q := Strip(query);
    if '-' in p then InRange(q, p) else q == p
  }

  /** The range-aware match accepts a number against "a-b" exactly when the
      number lies in the inclusive range. */
  lemma {:induction false} RangeAwareMatchesInclusiveRange(a: nat, b: nat, n: nat)
    ensures RangeAwarePriceMatch(ShowNat(n), ShowNat(a) + "-" + ShowNat(b)) <==> a <= n <= b
  {
    var da, db, dn := ShowNat(a), ShowNat(b), ShowNat(n);
    RangeTextIsPriceText(da, db);
    RangeAwareOnPriceText(dn, da + "-" + db);
    ShowNatIsStripped(n);
    InRangeOfRangeText(dn, da, db);
    ParseShowNat(n);
    DigitsValueShowNat(a);
    DigitsValueShowNat(b);
  }

  /** The range-aware match also reads a range written among other words,
      as in "Rs. 500-1000 for two": n matches exactly when a <= n <= b. */
  lemma {:induction false} RangeAwareMatchesDecoratedRange(pre: string, a: nat, b: nat, post: string, n: nat)
    requires NoPriceChars(pre) && NoPriceChars(post)
    ensures RangeAwarePriceMatch(ShowNat(n), pre + ShowNat(a) + "-" + ShowNat(b) + post) <==> a <= n <= b
  {
    var x := ShowNat(a) + "-" + ShowNat(b);
    assert pre + ShowNat(a) + "-" + ShowNat(b) + post == pre + x + post;
    KeepPriceCharsAround(pre, x, post);
    RangeAwareFollowsKeptChars(ShowNat(n), pre + x + post, x);
    RangeAwareMatchesInclusiveRange(a, b, n);
  }

  /** Text without digits or hyphens around a price does not change the
      characters kept from it. */
  lemma {:induction false} KeepPriceCharsAround(pre: string, x: string, post: string)
    requires NoPriceChars(pre) && NoPriceChars(post)
    ensures KeepPriceChars(pre + x + post) == KeepPriceChars(x)
  {
    KeepPriceCharsAppend(pre + x, post);
    KeepPriceCharsAppend(pre, x);
    assert KeepPriceChars(pre) == [] && KeepPriceChars(post) == [];
    assert [] + KeepPriceChars(x) + [] == KeepPriceChars(x);
  }

  /** The range-aware match sees a price text only through the characters
      it keeps. */
  lemma RangeAwareFollowsKeptChars(query: string, p1: string, p2: string)
    requires KeepPriceChars(p1) == KeepPriceChars(p2)
    ensures RangeAwarePriceMatch(query, p1) == RangeAwarePriceMatch(query, p2)
  {
  }

  /** "d-e" for digit strings d and e is a price text holding a hyphen. */
  lemma RangeTextIsPriceText(d: string, e: string)
    requires AllDigits(d) && AllDigits(e)
    ensures forall i :: 0 <= i < |d + "-" + e| ==> IsPriceChar((d + "-" + e)[i])
    ensures '-' in d + "-" + e
  {
    assert (d + "-" + e)[|d|] == '-';
  }

  /** On a text of digits and hyphens that holds a hyphen, the range-aware
      match is the range test. */
  lemma RangeAwareOnPriceText(q: string, p: string)
    requires forall i :: 0 <= i < |p| ==> IsPriceChar(p[i])
    requires '-' in p
    ensures RangeAwarePriceMatch(q, p) == InRange(Strip(q), p)
  {
    KeepPriceCharsKeepsPriceText(p);
  }

  /** The range test on "d-e" compares the query's value with d and e. */
  lemma InRangeOfRangeText(q: string, d: string, e: string)
    requires |d| > 0 && AllDigits(d)
    requires |e| > 0 && AllDigits(e)
    ensures InRange(q, d + "-" + e) <==>
      ParseInt(q).Some? && DigitsValue(d) <= ParseInt(q).value <= DigitsValue(e)
  {
    DigitRunsOfRange(d, e);
  }

  /** On prices without a range the range-aware match agrees with the
      original one. */
  lemma {:induction false} RangeAwareAgreesWithoutHyphen(query: string, priceValue: string)
    requires '-' !in priceValue
    ensures RangeAwarePriceMatch(query, priceValue) <==> ExactPriceMatch(query, priceValue)
  {
    KeepPriceCharsWithoutHyphen(priceValue);
  }
}
