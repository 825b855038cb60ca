/** The field parsers of the transform step (ETL/etl_pipeline.py): total
    functions from an optional raw string to a typed value. None of them
    fails: whatever the source's `try`/`except` catches becomes `None` or 0.
    Prices and ratings are in hundredths (1234.56 is 123456). */
module FieldParsers {

  import opened Wrappers
  import opened Text
  import opened Decimals

  /** A single price is kept only when strictly between 0 and this many units. */
  const PriceLimit: nat := 1000000
  /** A rating is kept only when at most this value. */
  const RatingLimit: nat := 5

  // ---------------------------------------------------------------------------
  // _clean_text
  // ---------------------------------------------------------------------------

  /** `_clean_text`: `None` or `''` give `''`; otherwise strip and turn each
      run of whitespace into one space. Nothing but whitespace is lost, and
      the words stay apart: `r.split() == text.split()`. */
  function CleanText(text: Option<string>): (r: string)
    ensures IsClean(r)
    ensures NonSpaces(r) == if text.Some? then NonSpaces(text.value) else []
    ensures text.Some? ==> Words(r) == Words(text.value)
  {
    if text.None? || text.value == [] then []
    else
      var s := text.value;
      NonSpacesTrimLeft(s);
      NonSpacesTrimRight(TrimLeft(s));
      NonSpacesCollapse(Strip(s));
      CollapseKeepsWords(Strip(s));
      WordsOfStrip(s);
      CollapseSpaces(Strip(s))
  }

  // ---------------------------------------------------------------------------
  // _parse_price
  // ---------------------------------------------------------------------------

  /** `float(re.findall(r'[\d.]+', s)[0])`, or `None` when there is no run
      (`IndexError`) or `float()` rejects it (`ValueError`). */
  function FirstNumber(s: string): (d: Option<Decimal>)
  {
    match FirstMatch(s, DigitsAndDots)
    case None => None
    case Some(run) => ParseRun(run)
  }

  /** The range branch of `_parse_price`: when `cleaned.split('-')` has exactly
      two parts and each holds a number, the mean of the two, rounded to
      hundredths, with no range check. Otherwise the source falls through. */
  function RangePrice(cleaned: string): (price: Option<nat>)
  {
    var parts := Split(cleaned, '-');
    if |parts| != 2 then None
    else
      match (FirstNumber(parts[0]), FirstNumber(parts[1]))
      case (Some(low), Some(high)) => Some(MeanHundredths(low, high))
      case _ => None
  }

  /** The main branch of `_parse_price`: the first number, rounded to
      hundredths, when `0 < p < 1000000` holds of the unrounded value. */
  function SinglePrice(cleaned: string): (price: Option<nat>)
    ensures price.Some? ==> price.value <= PriceLimit * 100
  {
    match FirstNumber(cleaned)
    case None => None
    case Some(p) =>
      if IsPositive(p) && LessThan(p, PriceLimit) then
        HundredthsAtMost(p, PriceLimit);
        Some(Hundredths(p))
      else None
  }

  /** `_parse_price` after the currency symbols and commas are gone: the range
      branch when it yields a price, the single price otherwise. */
  function PriceOfCleaned(cleaned: string): (price: Option<nat>)
  {
    var range := if '-' in cleaned then RangePrice(cleaned) else None;
    if range.Some? then range else SinglePrice(cleaned)
  }

  /** `_parse_price`. */
  function ParsePrice(text: Option<string>): (price: Option<nat>)
    ensures text.None? || text.value == [] ==> price.None?
  {
    if text.None? || text.value == [] then None
    else PriceOfCleaned(RemoveAll(text.value, CurrencyAndCommas))
  }

  // ---------------------------------------------------------------------------
  // _parse_reviews_count
  // ---------------------------------------------------------------------------

  /** Characters whose `str.lower()` is `'k'` (the Kelvin sign is one). */
  predicate LowersToK(c: char)
  {
    c == 'k' || c == 'K' || c == '\U{212A}'
  }

  /** Characters whose `str.lower()` is `'m'`. */
  predicate LowersToM(c: char)
  {
    c == 'm' || c == 'M'
  }

  predicate HasK(s: string)
  {
    exists i :: 0 <= i < |s| && LowersToK(s[i])
  }

  predicate HasM(s: string)
  {
    exists i :: 0 <= i < |s| && LowersToM(s[i])
  }

  /** `int(float(first [\d.]+ run) * factor)`, 0 when there is no run or `float()` rejects it. */
  function ScaledCount(cleaned: string, factor: nat): nat
  {
    match FirstNumber(cleaned)
    case None => 0
    case Some(x) => TruncatedTimes(x, factor)
  }

  /** `_parse_reviews_count`: commas go first; a `k` anywhere (checked first)
      multiplies the first number by 1000, else an `m` anywhere by 1000000;
      otherwise the first run of digits. Anything unreadable is 0. */
  function ParseReviewsCount(text: Option<string>): (count: nat)
    ensures text.None? || text.value == [] ==> count == 0
  {
    if text.None? || text.value == [] then 0
    else ReviewsOfCleaned(RemoveAll(text.value, Commas))
  }

  /** `_parse_reviews_count` after the commas are gone. */
  function ReviewsOfCleaned(cleaned: string): nat
  {
    if HasK(cleaned) then ScaledCount(cleaned, 1000)
    else if HasM(cleaned) then ScaledCount(cleaned, 1000000)
    else
      match FirstMatch(cleaned, DigitsOnly)
      case None => 0
      case Some(ds) => DigitsValue(ds)
  }

  // ---------------------------------------------------------------------------
  // _parse_rating
  // ---------------------------------------------------------------------------

  /** `_parse_rating`: the first number, rounded to hundredths, when it lies in
      [0, 5]; a run has no sign, so only the upper bound can fail. */
  function ParseRating(text: Option<string>): (rating: Option<nat>)
    ensures text.None? || text.value == [] ==> rating.None?
    ensures rating.Some? ==> rating.value <= RatingLimit * 100
  {
    if text.None? || text.value == [] then None
    else
      match FirstNumber(text.value)
      case None => None
      case Some(x) =>
        if AtMost(x, RatingLimit) then
          HundredthsAtMost(x, RatingLimit);
          Some(Hundredths(x))
        else None
  }

  // ---------------------------------------------------------------------------
  // _extract_company_from_name
  // ---------------------------------------------------------------------------

  /** `name.split('-')[0].split(',')[0]`: the title up to its first '-' and then its first ','. */
  function BrandSegment(name: string): (segment: string)
    ensures '-' !in segment && ',' !in segment
    ensures segment <= name
    ensures |segment| == |name| || name[|segment|] == '-' || name[|segment|] == ','
  {
    var beforeDash := Split(name, '-')[0];
    var segment := Split(beforeDash, ',')[0];
    assert forall j :: 0 <= j < |segment| ==> segment[j] == beforeDash[j];
    assert |segment| < |beforeDash| ==> name[|segment|] == beforeDash[|segment|];
    segment
  }

  /** `_extract_company_from_name`: the first (up to) three words of the
      brand segment joined by single spaces, or `'Unknown'` when it has none;
      splitting the company again gives back those words. */
  function ExtractCompanyFromName(name: string): (company: string)
    ensures var ws := Words(BrandSegment(name));
      && (ws == [] ==> company == "Unknown")
      && (ws != [] ==> IsClean(company) && Words(company) == ws[..if |ws| <= 3 then |ws| else 3])
  {
    var segment := BrandSegment(name);
    WordsOfStrip(segment);
    WordsAreWords(Strip(segment));
    CompanyOfWords(Words(Strip(segment)))
  }

  /** `' '.join(words[:3]) if words[:3] else 'Unknown'`: for a list of
      words, the result is clean (single spaces between the words, none at
      the ends) and splitting it again gives back its first three, so it is
      exactly their single-space join. */
  function CompanyOfWords(words: seq<string>): (company: string)
    ensures words == [] ==> company == "Unknown"
    ensures words != [] && (forall i :: 0 <= i < |words| ==> IsWord(words[i])) ==>
      IsClean(company) && Words(company) == words[..if |words| <= 3 then |words| else 3]
  {
    var firstWords := words[..if |words| <= 3 then |words| else 3];
    if firstWords == [] then "Unknown"
    else
      var company := JoinWords(firstWords);
      WordsOfJoinPrefix(words, |firstWords|);
      CleanTextIsJoinedWords(company);
      company
  }

  lemma WordsOfJoinPrefix(words: seq<string>, k: nat)
    requires k <= |words|
    ensures (forall i :: 0 <= i < |words| ==> IsWord(words[i])) ==>
      Words(JoinWords(words[..k])) == words[..k]
  {
    var first := words[..k];
    if forall i :: 0 <= i < |words| ==> IsWord(words[i]) {
      assert forall i :: 0 <= i < |first| ==> first[i] == words[i];
      WordsOfJoin(first);
    }
  }

  // ---------------------------------------------------------------------------
  // Properties
  // ---------------------------------------------------------------------------

  /** Rounding a value at most `n` to hundredths gives at most `100 * n`. */
  lemma HundredthsAtMost(x: Decimal, n: nat)
    requires AtMost(x, n)
    ensures Hundredths(x) <= n * 100
  {
    RoundedAtMost(Hundredths(x), x.digits * 100, Pow10(x.scale), n * 100);
  }

  /** A half-way rounding of `v / p` with `v <= m * p` is at most `m`. */
  lemma RoundedAtMost(q: nat, v: nat, p: nat, m: nat)
    requires p > 0 && 2 * q * p <= 2 * v + p && v <= m * p
    ensures q <= m
  {
    if q > m {
      MulStep(q, m, p);
      assert false;
    }
  }

  lemma MulStep(q: nat, m: nat, p: nat)
    requires q > m
    ensures q * p >= m * p + p
  {
    var k := q - m - 1;
    assert q * p == k * p + m * p + p;
  }

  /** Cleaning twice is cleaning once. */
  lemma CleanTextIdempotent(text: Option<string>)
    ensures CleanText(Some(CleanText(text))) == CleanText(text)
  {
    var t := CleanText(text);
    if t != [] {
      assert TrimLeft(t) == t;
      assert TrimRight(t) == t;
      CollapseKeepsSingleSpaced(t);
    }
  }

  /** `_clean_text` returns `''` exactly for a missing or all-whitespace text. */
  lemma CleanTextEmpty(text: Option<string>)
    ensures CleanText(text) == [] <==> text.None? || forall i :: 0 <= i < |text.value| ==> IsSpace(text.value[i])
  {
    var r := CleanText(text);
    if text.Some? {
      NonSpacesEmpty(text.value);
      NonSpacesEmpty(r);
    }
  }

  /** `_clean_text(s) == ' '.join(s.split())`: the cleaned text is the
      words of the raw text, in order, joined by single spaces. */
  lemma CleanTextIsJoinedWords(s: string)
    ensures CleanText(Some(s)) == JoinWords(Words(s))
  {
    JoinWordsOfClean(CleanText(Some(s)));
  }

  /** The currency symbols and commas make no difference to the price. */
  lemma PriceIgnoresSymbols(s: string)
    ensures ParsePrice(Some(s)) == ParsePrice(Some(RemoveAll(s, CurrencyAndCommas)))
  {
    RemoveAllTwice(s, CurrencyAndCommas);
  }

  /** Commas make no difference to the reviews count. */
  lemma ReviewsIgnoreCommas(s: string)
    ensures ParseReviewsCount(Some(s)) == ParseReviewsCount(Some(RemoveAll(s, Commas)))
  {
    RemoveAllTwice(s, Commas);
  }

  /** A text with two decimals reads back as the hundredths it shows when they
      lie strictly between 0 and the price limit, and as no price otherwise. */
  lemma PriceRoundTrip(c: nat)
    ensures ParsePrice(Some(ShowHundredths(c))) == if 0 < c < PriceLimit * 100 then Some(c) else None
  {
    var f := ShowHundredths(c);
    ParseShowHundredths(c);
    NumberHasNoSymbols(f);
    RemoveAllKeeps(f, CurrencyAndCommas);
    assert FirstNumber(f) == Some(Decimal(c, 2)) by {
      FirstMatchOfRun(f, DigitsAndDots);
    }
    assert Pow10(2) == 100;
    HundredthsOfCents(c, 2);
    assert ParsePrice(Some(f)) == SinglePrice(f);
  }

  /** The same with a currency symbol in front. */
  lemma DollarPriceRoundTrip(c: nat)
    ensures ParsePrice(Some("$" + ShowHundredths(c))) == if 0 < c < PriceLimit * 100 then Some(c) else None
  {
    var f := ShowHundredths(c);
    PriceIgnoresSymbols("$" + f);
    PriceIgnoresSymbols(f);
    RemoveAllAppend("$", f, CurrencyAndCommas);
    assert RemoveAll("$", CurrencyAndCommas) == [];
    PriceRoundTrip(c);
  }

  /** A whole number of units reads back as that many hundreds of hundredths. */
  lemma WholePriceRoundTrip(n: nat)
    ensures ParsePrice(Some(ShowNat(n))) == if 0 < n < PriceLimit then Some(100 * n) else None
  {
    var w := ShowNat(n);
    ParseWhole(w);
    ShowNatValue(n);
    NumberHasNoSymbols(w);
    RemoveAllKeeps(w, CurrencyAndCommas);
    assert FirstNumber(w) == Some(Decimal(n, 0)) by {
      FirstMatchOfRun(w, DigitsAndDots);
    }
    assert Hundredths(Decimal(n, 0)) == 100 * n;
    assert ParsePrice(Some(w)) == SinglePrice(w);
  }

  /** A leading '-' is read as an empty lower end of a range, which has no
      number, so the text after it is parsed as a single price: the sign is lost. */
  lemma LeadingMinusIgnored(s: string)
    requires '-' !in s
    ensures ParsePrice(Some("-" + s)) == ParsePrice(Some(s))
  {
    var cleaned := RemoveAll(s, CurrencyAndCommas);
    RemoveAllAppend("-", s, CurrencyAndCommas);
    MinusIsNotASymbol();
    assert '-' !in cleaned by {
      RemoveAllMembers(s, CurrencyAndCommas);
    }
    MinusThenCleaned(cleaned);
  }

  /** `PriceOfCleaned` ignores a '-' in front of a text without one. */
  lemma MinusThenCleaned(cleaned: string)
    requires '-' !in cleaned
    ensures PriceOfCleaned("-" + cleaned) == PriceOfCleaned(cleaned)
  {
    assert RangePrice("-" + cleaned) == None by {
      SplitAround([], '-', cleaned);
      SplitWithout(cleaned, '-');
      assert [] + "-" + cleaned == "-" + cleaned;
      assert FirstNumber([]) == None;
    }
    SkipOutsideClass('-', cleaned, DigitsAndDots);
  }

  /** A rating text with two decimals reads back as the hundredths it shows
      when they are at most 5.00, and as no rating otherwise. */
  lemma RatingRoundTrip(c: nat)
    ensures ParseRating(Some(ShowHundredths(c))) == if c <= RatingLimit * 100 then Some(c) else None
  {
    var f := ShowHundredths(c);
    ParseShowHundredths(c);
    FirstMatchOfRun(f, DigitsAndDots);
    assert Pow10(2) == 100;
    HundredthsOfCents(c, 2);
  }

  /** A plain number of reviews reads back as itself. */
  lemma ReviewsRoundTrip(n: nat)
    ensures ParseReviewsCount(Some(ShowNat(n))) == n
  {
    var w := ShowNat(n);
    assert forall i :: 0 <= i < |w| ==> w[i] != ',' && !LowersToK(w[i]) && !LowersToM(w[i]);
    RemoveAllKeeps(w, Commas);
    FirstMatchOfRun(w, DigitsOnly);
    ShowNatValue(n);
  }

  /** A number of thousands written with a `k` reads back as that many thousands. */
  lemma ThousandsRoundTrip(n: nat)
    ensures ParseReviewsCount(Some(ShowNat(n) + "k")) == 1000 * n
  {
    var w := ShowNat(n);
    var s := w + "k";
    assert forall i :: 0 <= i < |s| ==> s[i] != ',';
    RemoveAllKeeps(s, Commas);
    assert LowersToK(s[|w|]);
    RunThenFirstMatch(w, 'k', [], DigitsAndDots);
    assert w + ['k'] + [] == s;
    ParseWhole(w);
    ShowNatValue(n);
  }

  /** A number of millions written with an `m` reads back as that many millions. */
  lemma MillionsRoundTrip(n: nat)
    ensures ParseReviewsCount(Some(ShowNat(n) + "m")) == 1000000 * n
  {
    MillionsOfDigits(ShowNat(n));
    ShowNatValue(n);
  }

  lemma MillionsOfDigits(w: string)
    requires w != [] && AllDigits(w)
    ensures ParseReviewsCount(Some(w + "m")) == 1000000 * DigitsValue(w)
  {
    var s := w + "m";
    DigitsThenM(w);
    FirstNumberOfRunThen(w, "m");
    ParseWhole(w);
    assert ReviewsOfCleaned(s) == ScaledCount(s, 1000000);
    assert Pow10(0) == 1;
  }

  /** Digits followed by `m`: no comma, no `k`, one `m`. */
  lemma DigitsThenM(w: string)
    requires AllDigits(w)
    ensures RemoveAll(w + "m", Commas) == w + "m"
    ensures !HasK(w + "m") && HasM(w + "m")
  {
    var s := w + "m";
    assert forall i :: 0 <= i < |s| ==> s[i] != ',' && !LowersToK(s[i]);
    RemoveAllKeeps(s, Commas);
    assert LowersToM(s[|w|]);
  }

  /** The `k` test comes first: "5mk" is read as thousands, not millions. */
  lemma ThousandsBeforeMillions(n: nat)
    ensures ParseReviewsCount(Some(ShowNat(n) + "mk")) == 1000 * n
  {
    var w := ShowNat(n);
    var s := w + "mk";
    assert forall i :: 0 <= i < |s| ==> s[i] != ',';
    RemoveAllKeeps(s, Commas);
    assert LowersToK(s[|w| + 1]);
    RunThenFirstMatch(w, 'm', "k", DigitsAndDots);
    assert w + ['m'] + "k" == s;
    ParseWhole(w);
    ShowNatValue(n);
  }

  /** Without a single digit the reviews count is 0. */
  lemma ReviewsWithoutDigits(s: string)
    requires forall i :: 0 <= i < |s| ==> !IsDigit(s[i])
    ensures ParseReviewsCount(Some(s)) == 0
  {
    var cleaned := RemoveAll(s, Commas);
    RemoveAllMembers(s, Commas);
    assert forall i :: 0 <= i < |cleaned| ==> !IsDigit(cleaned[i]) by {
      forall i | 0 <= i < |cleaned|
        ensures !IsDigit(cleaned[i])
      {
        assert cleaned[i] in cleaned;
      }
    }
    var m := FirstMatch(cleaned, DigitsAndDots);
    if m.Some? {
      FirstMatchChars(cleaned, DigitsAndDots);
      ParseRunAccepts(m.value);
      assert forall j :: 0 <= j < |m.value| ==> !IsDigit(m.value[j]) by {
        forall j | 0 <= j < |m.value|
          ensures !IsDigit(m.value[j])
        {
          var k :| 0 <= k < |cleaned| && cleaned[k] == m.value[j];
        }
      }
    }
  }

  /** A run of digits and dots holds no currency symbol, comma or '-'. */
  lemma NumberHasNoSymbols(s: string)
    requires forall i :: 0 <= i < |s| ==> DigitsAndDots.Has(s[i])
    ensures forall i :: 0 <= i < |s| ==> !CurrencyAndCommas.Drops(s[i])
    ensures '-' !in s
  {
    forall i | 0 <= i < |s|
      ensures !CurrencyAndCommas.Drops(s[i]) && s[i] != '-'
    {
      assert DigitsAndDots.Has(s[i]);
    }
  }

  /** A range of two whole numbers is their mean, with no bound on either end
      ("0-0" gives 0.00 although "0" alone gives no price). */
  lemma RangeOfWholeNumbers(a: nat, b: nat)
    ensures ParsePrice(Some(ShowNat(a) + "-" + ShowNat(b))) == Some(50 * (a + b))
  {
    var s := ShowNat(a) + "-" + ShowNat(b);
    WholeRangeHasNoSymbols(a, b);
    WholeRangeMean(a, b);
    assert ParsePrice(Some(s)) == RangePrice(s);
  }

  lemma WholeRangeHasNoSymbols(a: nat, b: nat)
    ensures RemoveAll(ShowNat(a) + "-" + ShowNat(b), CurrencyAndCommas) == ShowNat(a) + "-" + ShowNat(b)
    ensures '-' in ShowNat(a) + "-" + ShowNat(b)
  {
    var wa, wb := ShowNat(a), ShowNat(b);
    var s := wa + "-" + wb;
    NumberOfWhole(a);
    NumberOfWhole(b);
    NumberHasNoSymbols(wa);
    NumberHasNoSymbols(wb);
    RemoveAllKeeps(wa, CurrencyAndCommas);
    RemoveAllKeeps(wb, CurrencyAndCommas);
    MinusIsNotASymbol();
    RemoveAllAppend(wa, "-", CurrencyAndCommas);
    RemoveAllAppend(wa + "-", wb, CurrencyAndCommas);
    assert s[|wa|] == '-';
  }

  lemma WholeRangeMean(a: nat, b: nat)
    ensures RangePrice(ShowNat(a) + "-" + ShowNat(b)) == Some(50 * (a + b))
  {
    SplitWholeRange(a, b);
    NumberOfWhole(a);
    NumberOfWhole(b);
    MeanOfWholeNumbers(a, b);
  }

  lemma SplitWholeRange(a: nat, b: nat)
    ensures Split(ShowNat(a) + "-" + ShowNat(b), '-') == [ShowNat(a), ShowNat(b)]
  {
    var wa, wb := ShowNat(a), ShowNat(b);
    NumberOfWhole(a);
    NumberOfWhole(b);
    NumberHasNoSymbols(wa);
    NumberHasNoSymbols(wb);
    SplitAround(wa, '-', wb);
    SplitWithout(wb, '-');
  }

  lemma MinusIsNotASymbol()
    ensures RemoveAll("-", CurrencyAndCommas) == "-"
  {
    assert !CurrencyAndCommas.Drops('-');
    RemoveAllSingle('-', CurrencyAndCommas);
  }

  /** `float(str(n))` is `n`. */
  lemma NumberOfWhole(n: nat)
    ensures forall i :: 0 <= i < |ShowNat(n)| ==> DigitsAndDots.Has(ShowNat(n)[i])
    ensures FirstNumber(ShowNat(n)) == Some(Decimal(n, 0))
  {
    ParseWhole(ShowNat(n));
    ShowNatValue(n);
    FirstMatchOfRun(ShowNat(n), DigitsAndDots);
  }

  /** A run followed by text that cannot continue it is the first number. */
  lemma FirstNumberOfRunThen(run: string, rest: string)
    requires run != [] && forall i :: 0 <= i < |run| ==> DigitsAndDots.Has(run[i])
    requires rest == [] || !DigitsAndDots.Has(rest[0])
    ensures FirstNumber(run + rest) == ParseRun(run)
  {
    if rest == [] {
      assert run + rest == run;
      FirstMatchOfRun(run, DigitsAndDots);
    } else {
      assert run + rest == run + [rest[0]] + rest[1..];
      RunThenFirstMatch(run, rest[0], rest[1..], DigitsAndDots);
    }
  }

  /** Dropping a currency symbol or a thousands separator anywhere does not
      change the price. */
  lemma PriceSymbolDropped(a: string, c: char, b: string)
    requires CurrencyAndCommas.Drops(c)
    ensures ParsePrice(Some(a + [c] + b)) == ParsePrice(Some(a + b))
  {
    RemoveInside(a, c, b, CurrencyAndCommas);
    if a + b == [] {
      assert RemoveAll(a + [c] + b, CurrencyAndCommas) == [];
      assert PriceOfCleaned([]) == None;
    }
  }

  /** A range of two whole amounts, each with a currency symbol in front
      ("$50-$100"), is their mean (75.00). */
  lemma DollarRangeOfWholeNumbers(a: nat, b: nat)
    ensures ParsePrice(Some("$" + ShowNat(a) + "-$" + ShowNat(b))) == Some(50 * (a + b))
  {
    DollarsDropped(ShowNat(a), ShowNat(b));
    RangeOfWholeNumbers(a, b);
  }

  lemma DollarsDropped(x: string, y: string)
    ensures ParsePrice(Some("$" + x + "-$" + y)) == ParsePrice(Some(x + "-" + y))
  {
    var tail := x + "-$" + y;
    calc {
      ParsePrice(Some("$" + x + "-$" + y));
      { assert "$" + x + "-$" + y == [] + ['$'] + tail; }
      ParsePrice(Some([] + ['$'] + tail));
      { PriceSymbolDropped([], '$', tail); }
      ParsePrice(Some([] + tail));
      { assert [] + tail == (x + "-") + ['$'] + y; }
      ParsePrice(Some((x + "-") + ['$'] + y));
      { PriceSymbolDropped(x + "-", '$', y); }
      ParsePrice(Some((x + "-") + y));
      { assert (x + "-") + y == x + "-" + y; }
      ParsePrice(Some(x + "-" + y));
    }
  }

  /** The range branch in general: a cleaned text with exactly one '-' is the
      rounded mean of the first numbers of its two parts when both have one.
      When either part has none, the text falls through to the single price
      of the whole text, so "Save-5" gives 5.00. */
  lemma RangeOfParts(x: string, y: string)
    requires '-' !in x && '-' !in y
    ensures PriceOfCleaned(x + "-" + y) ==
      match (FirstNumber(x), FirstNumber(y))
      case (Some(low), Some(high)) => Some(MeanHundredths(low, high))
      case _ => SinglePrice(x + "-" + y)
  {
    var s := x + "-" + y;
    assert s[|x|] == '-';
    SplitAround(x, '-', y);
    SplitWithout(y, '-');
    assert Split(s, '-') == [x, y];
  }

  /** A cleaned text with no '-', or with more than one, never takes the range
      branch: `split('-')` does not give two parts. */
  lemma PriceOfCleanedCases(cleaned: string)
    requires Occurrences(cleaned, '-') != 1
    ensures PriceOfCleaned(cleaned) == SinglePrice(cleaned)
  {
    assert |Split(cleaned, '-')| != 2;
  }

  /** `RangeOfParts` on the raw text: currency symbols and commas go first,
      from both parts. */
  lemma PriceOfRange(x: string, y: string)
    requires '-' !in x && '-' !in y
    ensures var cx, cy := RemoveAll(x, CurrencyAndCommas), RemoveAll(y, CurrencyAndCommas);
      ParsePrice(Some(x + "-" + y)) ==
        match (FirstNumber(cx), FirstNumber(cy))
        case (Some(low), Some(high)) => Some(MeanHundredths(low, high))
        case _ => SinglePrice(cx + "-" + cy)
  {
    var cx, cy := RemoveAll(x, CurrencyAndCommas), RemoveAll(y, CurrencyAndCommas);
    RemoveAllMembers(x, CurrencyAndCommas);
    RemoveAllMembers(y, CurrencyAndCommas);
    MinusIsNotASymbol();
    RemoveAllAppend(x, "-", CurrencyAndCommas);
    RemoveAllAppend(x + "-", y, CurrencyAndCommas);
    assert RemoveAll(x + "-" + y, CurrencyAndCommas) == cx + "-" + cy;
    RangeOfParts(cx, cy);
  }

  /** A range of two amounts with two decimals is their mean, rounded half to
      even on the exact value, with no bound on either end. */
  lemma DecimalRange(a: nat, b: nat)
    ensures ParsePrice(Some(ShowHundredths(a) + "-" + ShowHundredths(b)))
            == Some(MeanHundredths(Decimal(a, 2), Decimal(b, 2)))
  {
    var fa, fb := ShowHundredths(a), ShowHundredths(b);
    ParseShowHundredths(a);
    ParseShowHundredths(b);
    NumberHasNoSymbols(fa);
    NumberHasNoSymbols(fb);
    RemoveAllKeeps(fa, CurrencyAndCommas);
    RemoveAllKeeps(fb, CurrencyAndCommas);
    FirstMatchOfRun(fa, DigitsAndDots);
    FirstMatchOfRun(fb, DigitsAndDots);
    PriceOfRange(fa, fb);
  }

  /** "$49.99-$99.99" gives 74.99. */
  lemma PriceExampleDecimalRange()
    ensures ParsePrice(Some("$49.99-$99.99")) == Some(7499)
  {
    ExampleRangeDollars();
    ExampleRangeMean();
  }

  lemma ExampleRangeDollars()
    ensures ParsePrice(Some("$49.99-$99.99")) == ParsePrice(Some("49.99" + "-" + "99.99"))
  {
    assert "$49.99-$99.99" == "$" + "49.99" + "-$" + "99.99";
    DollarsDropped("49.99", "99.99");
  }

  lemma ExampleRangeMean()
    ensures ParsePrice(Some("49.99" + "-" + "99.99")) == Some(7499)
  {
    assert ShowHundredths(4999) == "49.99";
    assert ShowHundredths(9999) == "99.99";
    DecimalRange(4999, 9999);
    MeanOfExampleRange();
  }

  lemma MeanOfExampleRange()
    ensures MeanHundredths(Decimal(4999, 2), Decimal(9999, 2)) == 7499
  {
    assert Pow10(2) == 100;
    assert Pow10(4) == 10000;
    assert (4999 * 100 + 9999 * 100) * 100 == 7499 * 20000 + 10000 - 10000;
  }

  /** Dropping a thousands separator does not change the reviews count. */
  lemma ReviewsCommaDropped(a: string, b: string)
    ensures ParseReviewsCount(Some(a + "," + b)) == ParseReviewsCount(Some(a + b))
  {
    RemoveInside(a, ',', b, Commas);
    if a + b == [] {
      assert ReviewsOfCleaned([]) == 0;
    }
  }

  /** A count followed by a space and a word without `k`, `m` or digits is that count. */
  lemma ReviewsOfCountThenWord(n: nat, word: string)
    requires forall i :: 0 <= i < |word| ==> word[i] != ',' && !LowersToK(word[i]) && !LowersToM(word[i])
    ensures ParseReviewsCount(Some(ShowNat(n) + " " + word)) == n
  {
    var w := ShowNat(n);
    var s := w + " " + word;
    assert forall i :: 0 <= i < |s| ==> s[i] != ',' && !LowersToK(s[i]) && !LowersToM(s[i]) by {
      forall i | 0 <= i < |s|
        ensures s[i] != ',' && !LowersToK(s[i]) && !LowersToM(s[i])
      {
        if i < |w| {
          assert s[i] == w[i] && IsDigit(w[i]);
        } else if i > |w| {
          assert s[i] == word[i - |w| - 1];
        }
      }
    }
    RemoveAllKeeps(s, Commas);
    assert s == w + [' '] + word;
    RunThenFirstMatch(w, ' ', word, DigitsOnly);
    ShowNatValue(n);
  }

  /** `w.f` followed by `k`: the decimal times 1000, truncated. */
  lemma ThousandsOfDotted(w: string, f: string)
    requires AllDigits(w) && AllDigits(f) && (w != [] || f != [])
    ensures AllDigits(w + f)
    ensures ParseReviewsCount(Some(w + "." + f + "k")) == TruncatedTimes(Decimal(DigitsValue(w + f), |f|), 1000)
  {
    var run := w + "." + f;
    var s := run + "k";
    ParseDotted(w, f);
    assert forall i :: 0 <= i < |s| ==> s[i] != ',' by {
      forall i | 0 <= i < |s|
        ensures s[i] != ','
      {
        if i < |run| {
          assert s[i] == run[i] && DigitsAndDots.Has(run[i]);
        }
      }
    }
    RemoveAllKeeps(s, Commas);
    assert HasK(s) by {
      assert LowersToK(s[|run|]);
    }
    FirstNumberOfRunThen(run, "k");
    var x := Decimal(DigitsValue(w + f), |f|);
    assert FirstNumber(s) == Some(x);
    assert ScaledCount(s, 1000) == TruncatedTimes(x, 1000);
    assert ReviewsOfCleaned(s) == ScaledCount(s, 1000);
  }

  /** `_parse_rating` on `w.f`: the decimal, kept when at most 5. */
  lemma RatingOfDotted(w: string, f: string)
    requires AllDigits(w) && AllDigits(f) && (w != [] || f != [])
    ensures AllDigits(w + f)
    ensures ParseRating(Some(w + "." + f)) ==
      var x := Decimal(DigitsValue(w + f), |f|);
      if AtMost(x, RatingLimit) then Some(Hundredths(x)) else None
  {
    ParseDotted(w, f);
    FirstNumberOfRunThen(w + "." + f, []);
    assert w + "." + f + [] == w + "." + f;
  }

  /** Text after the rating's number ("out of 5 stars") makes no difference. */
  lemma RatingIgnoresTail(run: string, rest: string)
    requires run != [] && forall i :: 0 <= i < |run| ==> DigitsAndDots.Has(run[i])
    requires rest == [] || !DigitsAndDots.Has(rest[0])
    ensures ParseRating(Some(run + rest)) == ParseRating(Some(run))
  {
    FirstNumberOfRunThen(run, rest);
    FirstNumberOfRunThen(run, []);
    assert run + [] == run;
  }

  lemma PriceExamplePlain()
    ensures ParsePrice(Some("99.99")) == Some(9999)
  {
    assert ShowHundredths(9999) == "99.99";
    PriceRoundTrip(9999);
  }

  lemma PriceExampleZero()
    ensures ParsePrice(Some("$0.00")) == None
  {
    assert "$" + ShowHundredths(0) == "$0.00";
    DollarPriceRoundTrip(0);
  }

  /** "-5" gives 5.00: the sign is lost (see `LeadingMinusIgnored`). */
  lemma PriceExampleNegative()
    ensures ParsePrice(Some("-5")) == Some(500)
  {
    assert "-" + "5" == "-5";
    LeadingMinusIgnored("5");
    assert ShowNat(5) == "5";
    WholePriceRoundTrip(5);
  }

  /** `_parse_price` on `w.f`: the decimal, kept when strictly between 0 and the limit. */
  lemma PriceOfDotted(w: string, f: string)
    requires AllDigits(w) && AllDigits(f) && (w != [] || f != [])
    ensures AllDigits(w + f)
    ensures ParsePrice(Some(w + "." + f)) ==
      var x := Decimal(DigitsValue(w + f), |f|);
      if IsPositive(x) && LessThan(x, PriceLimit) then Some(Hundredths(x)) else None
  {
    var run := w + "." + f;
    ParseDotted(w, f);
    NumberHasNoSymbols(run);
    RemoveAllKeeps(run, CurrencyAndCommas);
    FirstNumberOfRunThen(run, []);
    assert run + [] == run;
    assert ParsePrice(Some(run)) == SinglePrice(run);
  }

  /** The bound is checked before rounding, so 0.001 is kept and rounds to 0.00. */
  lemma PriceExampleBelowCent()
    ensures ParsePrice(Some("0.001")) == Some(0)
  {
    assert "0.001" == "0" + "." + "001";
    PriceOfDotted("0", "001");
    OneThousandth();
    assert Pow10(3) == 1000;
    assert Hundredths(Decimal(1, 3)) == 0;
  }

  lemma OneThousandth()
    ensures AllDigits("0" + "001") && DigitsValue("0" + "001") == 1
  {
    assert "0" + "001" == "00" + "01";
    TwoDigitsValue('0', '0');
    TwoDigitsValue('0', '1');
    DigitsValueAppend("00", "01");
    assert Pow10(2) == 100;
  }

  lemma RatingExamplePlain()
    ensures ParseRating(Some("4.5")) == Some(450)
  {
    assert "4.5" == "4" + "." + "5";
    RatingOfDotted("4", "5");
    TwoDigitsValue('4', '5');
    assert "4" + "5" == ['4', '5'];
    assert Pow10(1) == 10;
    assert Hundredths(Decimal(45, 1)) == 450;
  }

  lemma RatingExampleTooHigh()
    ensures ParseRating(Some("6.0")) == None
  {
    assert "6.0" == "6" + "." + "0";
    RatingOfDotted("6", "0");
    TwoDigitsValue('6', '0');
    assert "6" + "0" == ['6', '0'];
    assert Pow10(1) == 10;
  }

  lemma ReviewsExampleThousands()
    ensures ParseReviewsCount(Some("1.2k")) == 1200
  {
    assert "1.2k" == "1" + "." + "2" + "k";
    ThousandsOfDotted("1", "2");
    TwelveTenths();
  }

  lemma TwelveTenths()
    ensures AllDigits("1" + "2") && TruncatedTimes(Decimal(DigitsValue("1" + "2"), 1), 1000) == 1200
  {
    TwoDigitsValue('1', '2');
    assert "1" + "2" == ['1', '2'];
    assert Pow10(1) == 10;
    assert TruncatedTimes(Decimal(12, 1), 1000) == 1200;
  }
}
