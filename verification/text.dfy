/** The string operations the recommender relies on: Python's `str.strip`,
    `str.lower`, the `[^\d]` substitution, `int(...)`, substring search and
    `re.findall(r'\d+', ...)`, over Dafny strings. */
module Text {
  import opened Wrappers

  // ---------------------------------------------------------------------------
  // Whitespace and str.strip()

  /** The characters for which Python's `str.isspace()` holds. */
  predicate IsSpace(c: char) {
    || ('\t' <= c <= '\r')
    || ('\U{1C}' <= c <= '\U{1F}')
    || c == ' '
    || c == '\U{85}'
    || c == '\U{A0}'
    || c == '\U{1680}'
    || ('\U{2000}' <= c <= '\U{200A}')
    || c == '\U{2028}'
    || c == '\U{2029}'
    || c == '\U{202F}'
    || c == '\U{205F}'
    || c == '\U{3000}'
  }

  predicate AllSpace(s: string) {
    forall i :: 0 <= i < |s| ==> IsSpace(s[i])
  }

  /** The number of whitespace characters `s` starts with. */
  function LeadingSpaces(s: string): (n: nat)
    ensures n <= |s|
    ensures forall k :: 0 <= k < n ==> IsSpace(s[k])
    ensures n == |s| || !IsSpace(s[n])
  {
    if |s| > 0 && IsSpace(s[0]) then 1 + LeadingSpaces(s[1..]) else 0
  }

  /** The number of whitespace characters `s` ends with. */
  function TrailingSpaces(s: string): (n: nat)
    ensures n <= |s|
    ensures forall k :: |s| - n <= k < |s| ==> IsSpace(s[k])
    ensures n == |s| || !IsSpace(s[|s| - n - 1])
  {
    if |s| > 0 && IsSpace(s[|s| - 1]) then 1 + TrailingSpaces(s[..|s| - 1]) else 0
  }

  /** `r` is a slice of `s` with nothing but whitespace around it. */
  predicate IsTrimmedSlice(r: string, s: string) {
    exists i, j :: 0 <= i <= j <= |s| && r == s[i..j] && AllSpace(s[..i]) && AllSpace(s[j..])
  }

  /** Python's `s.strip()`: the middle of `s`, with only the whitespace
      around it cut off. */
  function Strip(s: string): (r: string)
    ensures |r| <= |s|
    ensures IsTrimmedSlice(r, s)
    ensures r == [] || (!IsSpace(r[0]) && !IsSpace(r[|r| - 1]))
    ensures r == [] <==> AllSpace(s)
  {
    var i := LeadingSpaces(s);
    var j := if i == |s| then |s| else |s| - TrailingSpaces(s);
    CutSpaces(s, i, TrailingSpaces(s));
    s[i..j]
  }

  /** Cutting `i` leading and `n` trailing whitespace characters, both runs
      maximal, leaves a slice that is empty only when `s` is all whitespace
      and otherwise starts and ends with non-whitespace. */
  lemma CutSpaces(s: string, i: nat, n: nat)
    requires i <= |s| && (forall k :: 0 <= k < i ==> IsSpace(s[k])) && (i == |s| || !IsSpace(s[i]))
    requires n <= |s| && (forall k :: |s| - n <= k < |s| ==> IsSpace(s[k]))
    requires n == |s| || !IsSpace(s[|s| - n - 1])
    ensures var j := if i == |s| then |s| else |s| - n;
      && i <= j
      && var r := s[i..j];
      && |r| <= |s|
      && IsTrimmedSlice(r, s)
      && (r == [] || (!IsSpace(r[0]) && !IsSpace(r[|r| - 1])))
      && (r == [] <==> AllSpace(s))
  {
    var j := if i == |s| then |s| else |s| - n;
    if i < |s| {
      assert !IsSpace(s[i]);
    }
    assert AllSpace(s[..i]) && AllSpace(s[j..]);
  }

  /** Stripping a text that neither starts nor ends with whitespace leaves it alone. */
  lemma StripKeepsTrimmed(s: string)
    requires s == [] || (!IsSpace(s[0]) && !IsSpace(s[|s| - 1]))
    ensures Strip(s) == s
  {
  }

  /** Stripping is idempotent. */
  lemma StripIdempotent(s: string)
    ensures Strip(Strip(s)) == Strip(s)
  {
    StripKeepsTrimmed(Strip(s));
  }

  // ---------------------------------------------------------------------------
  // Lower-casing

  predicate IsUpper(c: char) {
    'A' <= c <= 'Z'
  }

  function LowerChar(c: char): (d: char)
  {
    if IsUpper(c) then (c as int + 32) as char else c
  }

  /** Python's `s.lower()`, restricted to the ASCII letters. */
  function Lower(s: string): (r: string)
    ensures |r| == |s|
    ensures forall i :: 0 <= i < |s| ==> r[i] == LowerChar(s[i])
    ensures forall i :: 0 <= i < |r| ==> !IsUpper(r[i])
    ensures forall i :: 0 <= i < |s| && !IsUpper(s[i]) ==> r[i] == s[i]
  {
    seq(|s|, i requires 0 <= i < |s| => LowerChar(s[i]))
  }

  /** Lower-casing leaves no upper-case letter and changes nothing else:
      every character is kept or is the lower-case partner of an upper-case one. */
  lemma LowerRemovesUpper(s: string)
    ensures forall i :: 0 <= i < |s| ==> !IsUpper(Lower(s)[i])
    ensures forall i :: 0 <= i < |s| ==>
      Lower(s)[i] == s[i] || (IsUpper(s[i]) && Lower(s)[i] as int == s[i] as int + 32)
  {
  }

  lemma LowerIdempotent(s: string)
    ensures Lower(Lower(s)) == Lower(s)
  {
  }

  /** A text without upper-case letters is its own lower-case form. */
  lemma LowerKeepsLowerCase(s: string)
    requires forall i :: 0 <= i < |s| ==> !IsUpper(s[i])
    ensures Lower(s) == s
  {
  }

  /** Lower-casing never turns whitespace into non-whitespace or back. */
  lemma LowerCharKeepsSpace(c: char)
    ensures IsSpace(LowerChar(c)) <==> IsSpace(c)
  {
  }

  /** The query normalisation `query.strip().lower()`. */
  function Normalize(q: string): (r: string)
    ensures |r| <= |q|
    ensures r == [] <==> AllSpace(q)
  {
    Lower(Strip(q))
  }

  /** A query without surrounding whitespace and without upper-case letters
      is already normalised. */
  lemma NormalizeKeepsPlainText(q: string)
    requires q == [] || (!IsSpace(q[0]) && !IsSpace(q[|q| - 1]))
    requires forall i :: 0 <= i < |q| ==> !IsUpper(q[i])
    ensures Normalize(q) == q
  {
    StripKeepsTrimmed(q);
    LowerKeepsLowerCase(q);
  }

  /** A normalised query is a fixed point of normalisation. */
  lemma {:induction false} NormalizeIdempotent(q: string)
    ensures Normalize(Normalize(q)) == Normalize(q)
  {
    var s := Strip(q);
    var n := Lower(s);
    if n != [] {
      LowerCharKeepsSpace(s[0]);
      LowerCharKeepsSpace(s[|s| - 1]);
    }
    StripKeepsTrimmed(n);
    assert Normalize(n) == Lower(n);
    LowerIdempotent(s);
  }

  // ---------------------------------------------------------------------------
  // Digits

  predicate IsDigit(c: char) {
    '0' <= c <= '9'
  }

  predicate AllDigits(s: string) {
    forall i :: 0 <= i < |s| ==> IsDigit(s[i])
  }

  predicate NoDigits(s: string) {
    forall i :: 0 <= i < |s| ==> !IsDigit(s[i])
  }

  /** `re.sub(r'[^\d]', '', s)`: the decimal digits of `s`, in order. */
  function DigitsOnly(s: string): (r: string)
    ensures |r| <= |s|
    ensures AllDigits(r)
    ensures r == [] <==> NoDigits(s)
  {
    if |s| == 0 then []
    else (if IsDigit(s[0]) then [s[0]] else []) + DigitsOnly(s[1..])
  }

  /** Digit extraction distributes over concatenation. */
  lemma {:induction false} DigitsOnlyAppend(a: string, b: string)
    ensures DigitsOnly(a + b) == DigitsOnly(a) + DigitsOnly(b)
    decreases |a|
  {
    if |a| == 0 {
      assert a + b == b;
    } else {
      assert (a + b)[0] == a[0];
      assert (a + b)[1..] == a[1..] + b;
      DigitsOnlyAppend(a[1..], b);
      var h := if IsDigit(a[0]) then [a[0]] else [];
      assert DigitsOnly(a + b) == h + DigitsOnly(a[1..] + b);
      assert DigitsOnly(a) == h + DigitsOnly(a[1..]);
    }
  }

  /** The digits of `d + sep + e`, for digit strings around a separator
      without digits, are `d + e`. */
  lemma {:induction false} DigitsOnlyAroundSeparator(d: string, sep: string, e: string)
    requires AllDigits(d) && AllDigits(e) && NoDigits(sep)
    ensures DigitsOnly(d + sep + e) == d + e
  {
    DigitsOnlyAppend(d + sep, e);
    DigitsOnlyAppend(d, sep);
    DigitsOnlyOfDigits(d);
    DigitsOnlyOfDigits(e);
    assert DigitsOnly(sep) == [];
    assert d + [] == d;
  }

  /** Text without digits around `x` does not change the digits of `x`. */
  lemma {:induction false} DigitsOnlyAround(pre: string, x: string, post: string)
    requires NoDigits(pre) && NoDigits(post)
    ensures DigitsOnly(pre + x + post) == DigitsOnly(x)
  {
    DigitsOnlyAppend(pre + x, post);
    DigitsOnlyAppend(pre, x);
    assert DigitsOnly(pre) == [] && DigitsOnly(post) == [];
    assert [] + DigitsOnly(x) + [] == DigitsOnly(x);
  }

  /** A text made only of digits is its own digit extraction. */
  lemma {:induction false} DigitsOnlyOfDigits(s: string)
    requires AllDigits(s)
    ensures DigitsOnly(s) == s
    decreases |s|
  {
    if |s| > 0 {
      DigitsOnlyOfDigits(s[1..]);
      assert s == [s[0]] + s[1..];
    }
  }

  function DigitValue(c: char): (n: nat)
    requires IsDigit(c)
    ensures n < 10
  {
    c as int - '0' as int
  }

  function DigitChar(n: nat): (c: char)
    requires n < 10
    ensures IsDigit(c) && DigitValue(c) == n
  {
    ('0' as int + n) as char
  }

  function Pow10(k: nat): (p: nat)
    ensures p >= 1
  {
    if k == 0 then 1 else 10 * Pow10(k - 1)
  }

  /** The value of a string of decimal digits, most significant first;
      0 for the empty string. */
  function DigitsValue(d: string): (n: nat)
    requires AllDigits(d)
    ensures n < Pow10(|d|)
  {
    if |d| == 0 then 0
    else 10 * DigitsValue(d[..|d| - 1]) + DigitValue(d[|d| - 1])
  }

  /** Reading `d + e` as one number shifts `d` left by the length of `e`. */
  lemma DigitsValueAppend(d: string, e: string)
    requires AllDigits(d) && AllDigits(e)
    ensures DigitsValue(d + e) == DigitsValue(d) * Pow10(|e|) + DigitsValue(e)
  {
    DigitsValueAppendShift(d, e);
    ShiftIsProduct(DigitsValue(d), |e|);
  }

  /** `x` followed by `k` zeros. */
  function Shift(x: int, k: nat): int {
    if k == 0 then x else 10 * Shift(x, k - 1)
  }

  lemma {:induction false} ShiftIsProduct(x: int, k: nat)
    ensures Shift(x, k) == x * Pow10(k)
  {
    if k > 0 {
      ShiftIsProduct(x, k - 1);
      assert 10 * (x * Pow10(k - 1)) == x * (10 * Pow10(k - 1));
    }
  }

  lemma {:induction false} DigitsValueAppendShift(d: string, e: string)
    requires AllDigits(d) && AllDigits(e)
    ensures DigitsValue(d + e) == Shift(DigitsValue(d), |e|) + DigitsValue(e)
    decreases |e|
  {
    if |e| == 0 {
      assert d + e == d;
    } else {
      var e' := e[..|e| - 1];
      var de := d + e;
      assert de[..|de| - 1] == d + e';
      assert de[|de| - 1] == e[|e| - 1];
      DigitsValueAppendShift(d, e');
    }
  }

  /** The shortest decimal rendering of `n` (Python's `str(n)` for n >= 0). */
  function ShowNat(n: nat): (s: string)
    ensures |s| >= 1 && AllDigits(s)
    ensures |s| > 1 ==> s[0] != '0'
  {
    if n < 10 then [DigitChar(n)] else ShowNat(n / 10) + [DigitChar(n % 10)]
  }

  /** Reading back a rendered number gives the number. */
  lemma {:induction false} DigitsValueShowNat(n: nat)
    ensures DigitsValue(ShowNat(n)) == n
  {
    if n >= 10 {
      var s := ShowNat(n);
      assert s[..|s| - 1] == ShowNat(n / 10);
      DigitsValueShowNat(n / 10);
    }
  }

  // ---------------------------------------------------------------------------
  // int(...)

  predicate IsSign(c: char) {
    c == '-' || c == '+'
  }

  /** Python's `int(s)` on an already stripped text: an optional sign followed
      by at least one decimal digit; anything else is a ValueError (None). */
  function ParseInt(s: string): (r: Option<int>)
    ensures r.Some? <==>
      (|s| > 0 && AllDigits(s)) || (|s| > 1 && IsSign(s[0]) && AllDigits(s[1..]))
    ensures r.Some? && !IsSign(s[0]) ==> r.value >= 0
  {
    if |s| > 1 && IsSign(s[0]) && AllDigits(s[1..]) then
      var m: int := DigitsValue(s[1..]);
      Some(if s[0] == '-' then -m else m)
    else if |s| > 0 && AllDigits(s) then
      Some(DigitsValue(s))
    else
      None
  }

  /** A text starting with neither a digit nor a sign is not an integer. */
  lemma ParseRejectsLeadingOther(s: string)
    requires |s| > 0 && !IsDigit(s[0]) && !IsSign(s[0])
    ensures ParseInt(s).None?
  {
  }

  /** A query without digits that is not all whitespace is never an integer
      once normalised. */
  lemma {:induction false} DigitlessQueryIsNotInteger(q: string)
    requires NoDigits(q) && !AllSpace(q)
    ensures ParseInt(Normalize(q)).None?
  {
    StripKeepsDigitless(q);
    LowerKeepsDigitless(Strip(q));
    ParseRejectsDigitless(Normalize(q));
  }

  /** Stripping a text without digits leaves a text without digits. */
  lemma StripKeepsDigitless(q: string)
    requires NoDigits(q)
    ensures NoDigits(Strip(q))
  {
    var s := Strip(q);
    var i, j :| 0 <= i <= j <= |q| && s == q[i..j] && AllSpace(q[..i]) && AllSpace(q[j..]);
    forall k | 0 <= k < |s|
      ensures !IsDigit(s[k])
    {
      assert s[k] == q[i + k];
    }
  }

  /** Lower-casing a text without digits gives a text without digits. */
  lemma LowerKeepsDigitless(s: string)
    requires NoDigits(s)
    ensures NoDigits(Lower(s))
  {
  }

  /** A non-empty text without digits is not an integer. */
  lemma ParseRejectsDigitless(s: string)
    requires |s| > 0 && NoDigits(s)
    ensures ParseInt(s).None?
  {
    assert !IsDigit(s[0]);
    if |s| > 1 {
      assert s[1..][0] == s[1];
    }
  }

  /** Python's `str(n)`. */
  function ShowInt(n: int): (s: string)
    ensures |s| >= 1
  {
    if n < 0 then "-" + ShowNat(-n) else ShowNat(n)
  }

  /** Reading back an unsigned rendering. */
  lemma {:induction false} ParseShowNat(n: nat)
    ensures ParseInt(ShowNat(n)) == Some(n)
  {
    var s := ShowNat(n);
    assert IsDigit(s[0]);
    assert !IsSign(s[0]);
    DigitsValueShowNat(n);
  }

  /** An unsigned or '+'-signed digit string is read as its value, leading
      zeros included: "0700" and "+700" are both 700. */
  lemma ParseUnsigned(d: string)
    requires |d| > 0 && AllDigits(d)
    ensures ParseInt(d) == Some(DigitsValue(d))
    ensures ParseInt("+" + d) == Some(DigitsValue(d))
  {
    assert IsDigit(d[0]) && !IsSign(d[0]);
    var s := "+" + d;
    assert s[0] == '+' && s[1..] == d;
  }

  /** Reading back a rendering with a minus sign. */
  lemma {:induction false} ParseNegated(d: string)
    requires |d| > 0 && AllDigits(d)
    ensures ParseInt("-" + d) == Some(-(DigitsValue(d) as int))
  {
    var s := "-" + d;
    assert s[1..] == d;
  }

  /** `int(str(n)) == n`. */
  lemma {:induction false} ParseShowInt(n: int)
    ensures ParseInt(ShowInt(n)) == Some(n)
  {
    if n < 0 {
      var d := ShowNat(-n);
      assert ShowInt(n) == "-" + d;
      ParseNegated(d);
      DigitsValueShowNat(-n);
      assert DigitsValue(d) as int == -n;
    } else {
      assert ShowInt(n) == ShowNat(n);
      ParseShowNat(n);
    }
  }

  // ---------------------------------------------------------------------------
  // Substring search

  predicate IsPrefix(p: string, s: string) {
    |p| <= |s| && s[..|p|] == p
  }

  /** `needle in hay`, searched left to right. */
  predicate IsSubstring(needle: string, hay: string): (b: bool)
    ensures b ==> |needle| <= |hay|
    ensures needle == [] ==> b
    decreases |hay|
  {
    IsPrefix(needle, hay) || (|hay| > 0 && IsSubstring(needle, hay[1..]))
  }

  /** `needle` occurs in `hay` starting at offset `k`. */
  predicate OccursAt(needle: string, hay: string, k: int) {
    0 <= k <= |hay| - |needle| && hay[k..k + |needle|] == needle
  }

  /** `needle` occurs somewhere in `hay`. */
  predicate Occurs(needle: string, hay: string) {
    exists k :: 0 <= k <= |hay| - |needle| && OccursAt(needle, hay, k)
  }

  /** The search succeeds exactly when the needle occurs at some offset. */
  lemma {:induction false} SubstringAtOffset(needle: string, hay: string)
    ensures IsSubstring(needle, hay) <==> exists k :: OccursAt(needle, hay, k)
    decreases |hay|
  {
    if IsSubstring(needle, hay) {
      if IsPrefix(needle, hay) {
        assert OccursAt(needle, hay, 0);
      } else {
        SubstringAtOffset(needle, hay[1..]);
        var k :| OccursAt(needle, hay[1..], k);
        assert hay[1..][k..k + |needle|] == hay[k + 1..k + 1 + |needle|];
        assert OccursAt(needle, hay, k + 1);
      }
    }
    if exists k :: OccursAt(needle, hay, k) {
      var k :| OccursAt(needle, hay, k);
      if k == 0 {
        assert IsPrefix(needle, hay);
      } else {
        assert hay[1..][k - 1..k - 1 + |needle|] == hay[k..k + |needle|];
        assert OccursAt(needle, hay[1..], k - 1);
        SubstringAtOffset(needle, hay[1..]);
      }
    }
  }

  /** The empty needle occurs in every text. */
  lemma EmptyIsSubstring(hay: string)
    ensures IsSubstring([], hay)
  {
  }

  // ---------------------------------------------------------------------------
  // re.findall(r'\d+', s)

  /** The length of the run of digits at the start of `s`. */
  function LeadingDigits(s: string): (n: nat)
    ensures n <= |s|
    ensures AllDigits(s[..n])
    ensures n == |s| || !IsDigit(s[n])
  {
    if |s| > 0 && IsDigit(s[0]) then
      var m := LeadingDigits(s[1..]);
      assert s[..1 + m] == [s[0]] + s[1..][..m];
      1 + m
    else 0
  }

  /** The concatenation of a sequence of texts. */
  function Join(parts: seq<string>): string
  {
    if |parts| == 0 then [] else parts[0] + Join(parts[1..])
  }

  /** `re.findall(r'\d+', s)`: the maximal runs of digits, left to right. */
  function DigitRuns(s: string): (runs: seq<string>)
    ensures forall k :: 0 <= k < |runs| ==> |runs[k]| > 0 && AllDigits(runs[k])
    decreases |s|
  {
    if |s| == 0 then []
    else if !IsDigit(s[0]) then DigitRuns(s[1..])
    else
      var n := LeadingDigits(s);
      [s[..n]] + DigitRuns(s[n..])
  }

  /** The runs joined together are exactly the digits of `s`, and there are
      none exactly when `s` has no digit. */
  lemma {:induction false} DigitRunsJoinDigits(s: string)
    ensures Join(DigitRuns(s)) == DigitsOnly(s)
    ensures DigitRuns(s) == [] <==> NoDigits(s)
    decreases |s|
  {
    if |s| > 0 {
      if !IsDigit(s[0]) {
        DigitRunsJoinDigits(s[1..]);
        assert DigitsOnly(s) == DigitsOnly(s[1..]);
      } else {
        var n := LeadingDigits(s);
        DigitRunsJoinDigits(s[n..]);
        DigitsOnlyOfRun(s, n);
        JoinCons(s[..n], DigitRuns(s[n..]));
      }
    }
  }

  lemma JoinCons(x: string, rest: seq<string>)
    ensures Join([x] + rest) == x + Join(rest)
  {
    assert ([x] + rest)[1..] == rest;
  }

  /** The digits of a text that starts with a run of `n` digits. */
  lemma DigitsOnlyOfRun(s: string, n: nat)
    requires n <= |s| && AllDigits(s[..n])
    ensures DigitsOnly(s) == s[..n] + DigitsOnly(s[n..])
  {
    assert s == s[..n] + s[n..];
    DigitsOnlyAppend(s[..n], s[n..]);
    DigitsOnlyOfDigits(s[..n]);
  }

  /** The runs of `d + "-" + e`, for two non-empty digit strings, are `d` and `e`. */
  lemma {:induction false} DigitRunsOfRange(d: string, e: string)
    requires |d| > 0 && AllDigits(d)
    requires |e| > 0 && AllDigits(e)
    ensures DigitRuns(d + "-" + e) == [d, e]
  {
    assert d + "-" + e == d + ("-" + e);
    DigitRunsAfterRun(d, "-" + e);
    DigitRunsSkip('-', e);
    DigitRunsAfterRun(e, []);
    assert e + [] == e;
  }

  /** A run of digits followed by a non-digit is the first run. */
  lemma DigitRunsAfterRun(d: string, rest: string)
    requires |d| > 0 && AllDigits(d)
    requires rest == [] || !IsDigit(rest[0])
    ensures DigitRuns(d + rest) == [d] + DigitRuns(rest)
  {
    var s := d + rest;
    LeadingDigitsOfRun(d, rest);
    assert s[0] == d[0];
    assert s[..|d|] == d;
    assert s[|d|..] == rest;
  }

  /** A leading non-digit starts no run. */
  lemma DigitRunsSkip(c: char, rest: string)
    requires !IsDigit(c)
    ensures DigitRuns([c] + rest) == DigitRuns(rest)
  {
    assert ([c] + rest)[1..] == rest;
  }

  /** The leading run of `d + rest` is exactly `d` when `rest` does not start with a digit. */
  lemma {:induction false} LeadingDigitsOfRun(d: string, rest: string)
    requires AllDigits(d)
    requires rest == [] || !IsDigit(rest[0])
    ensures LeadingDigits(d + rest) == |d|
    decreases |d|
  {
    if |d| == 0 {
      assert d + rest == rest;
    } else {
      assert (d + rest)[1..] == d[1..] + rest;
      LeadingDigitsOfRun(d[1..], rest);
    }
  }
}
