/** Exact decimals in place of the floats the parsers compute: `float()` of a
    `[\d.]+` run, `round(x, 2)`, `int(x * k)` and the comparisons against
    whole-number bounds. */
module Decimals {

  import opened Wrappers
  import opened Text

  /** The non-negative decimal `digits / 10^scale`: what `float()` reads from a run. */
  datatype Decimal = Decimal(digits: nat, scale: nat)

  function Pow10(n: nat): (p: nat)
    ensures p >= 1
  {
    if n == 0 then 1 else 10 * Pow10(n - 1)
  }

  predicate AllDigits(s: string)
  {
    forall i :: 0 <= i < |s| ==> IsDigit(s[i])
  }

  /** `int(s)` for a string of ASCII digits (0 for the empty string). */
  function DigitsValue(s: string): nat
    requires AllDigits(s)
  {
    if s == [] then 0 else 10 * DigitsValue(s[..|s| - 1]) + (s[|s| - 1] as int - '0' as int)
  }

  /** The digits before the dot of a run of digits and dots. */
  function WholePart(run: string): (w: string)
    requires forall i :: 0 <= i < |run| ==> DigitsAndDots.Has(run[i])
    ensures AllDigits(w)
  {
    var parts := Split(run, '.');
    OnlyDigitsLeft(run, parts[0]);
    parts[0]
  }

  /** The digits after the (first) dot of a run of digits and dots, if any. */
  function FractionPart(run: string): (f: string)
    requires forall i :: 0 <= i < |run| ==> DigitsAndDots.Has(run[i])
    ensures AllDigits(f)
  {
    var parts := Split(run, '.');
    if |parts| >= 2 then OnlyDigitsLeft(run, parts[1]); parts[1] else []
  }

  /** A dot-free piece of a run of digits and dots is all digits. */
  lemma OnlyDigitsLeft(run: string, piece: string)
    requires forall i :: 0 <= i < |run| ==> DigitsAndDots.Has(run[i])
    requires '.' !in piece && forall j :: 0 <= j < |piece| ==> piece[j] in run
    ensures AllDigits(piece)
  {
    forall j | 0 <= j < |piece|
      ensures IsDigit(piece[j])
    {
      var k :| 0 <= k < |run| && run[k] == piece[j];
      assert DigitsAndDots.Has(run[k]);
    }
  }

  /** `float(run)` for a run of digits and dots. Python accepts the run when it
      has at most one dot and at least one digit ("5", "5.", ".5", "1.25") and
      raises `ValueError` otherwise ("." or "1.2.3"): that case is `None`. */
  function ParseRun(run: string): (d: Option<Decimal>)
    requires forall i :: 0 <= i < |run| ==> DigitsAndDots.Has(run[i])
  {
    var whole, fraction := WholePart(run), FractionPart(run);
    if Occurrences(run, '.') > 1 || (whole == [] && fraction == []) then None
    else
      DigitsValueAppend(whole, fraction);
      Some(Decimal(DigitsValue(whole + fraction), |fraction|))
  }

  /** Python's `round(n / d)` on an exact quotient: the nearest integer, a
      tie going to the even one. */
  function RoundHalfEven(n: nat, d: nat): (q: nat)
    requires d > 0
    ensures 2 * n <= 2 * q * d + d && 2 * q * d <= 2 * n + d
    ensures (2 * n == 2 * q * d + d || 2 * q * d == 2 * n + d) ==> q % 2 == 0
  {
    var q, r := n / d, n % d;
    QuotientProducts(n, d, q, r);
    if 2 * r < d then q
    else if 2 * r > d then q + 1
    else if q % 2 == 0 then q
    else q + 1
  }

  /** The two candidates of `RoundHalfEven`, written without products. */
  lemma QuotientProducts(n: nat, d: nat, q: nat, r: nat)
    requires n == q * d + r
    ensures 2 * q * d == 2 * n - 2 * r
    ensures 2 * (q + 1) * d == 2 * n - 2 * r + 2 * d
  {
  }

  /** `round(x, 2)`, in hundredths. */
  function Hundredths(x: Decimal): (h: nat)
    ensures IsNearest(h, x.digits * 100, Pow10(x.scale))
  {
    RoundHalfEven(x.digits * 100, Pow10(x.scale))
  }

  /** `round((a + b) / 2, 2)`, in hundredths, computed over the common
      denominator `2 * 10^(a.scale + b.scale)`. */
  function MeanHundredths(a: Decimal, b: Decimal): (h: nat)
    ensures IsNearest(h, (a.digits * Pow10(b.scale) + b.digits * Pow10(a.scale)) * 100, 2 * Pow10(a.scale + b.scale))
  {
    RoundHalfEven((a.digits * Pow10(b.scale) + b.digits * Pow10(a.scale)) * 100, 2 * Pow10(a.scale + b.scale))
  }

  /** `q` is what `round(n / d)` gives: at most half a unit away from
      `n / d`, and even on a tie. */
  predicate IsNearest(q: nat, n: nat, d: nat)
  {
    && 2 * n <= 2 * q * d + d && 2 * q * d <= 2 * n + d
    && ((2 * n == 2 * q * d + d || 2 * q * d == 2 * n + d) ==> q % 2 == 0)
  }

  /** `int(x * k)`: Python's `int()` truncates, which for `x >= 0` is the floor. */
  function TruncatedTimes(x: Decimal, k: nat): (n: nat)
    ensures n * Pow10(x.scale) <= x.digits * k < n * Pow10(x.scale) + Pow10(x.scale)
  {
    Quotient(x.digits * k, Pow10(x.scale))
  }

  /** `m / p`, with the bounds that define it. */
  function Quotient(m: nat, p: nat): (q: nat)
    requires p > 0
    ensures q * p <= m < q * p + p
  {
    m / p
  }

  /** `0 < x`. */
  predicate IsPositive(x: Decimal)
  {
    x.digits > 0
  }

  /** `x < n` for a whole number `n`. */
  predicate LessThan(x: Decimal, n: nat)
  {
    x.digits < n * Pow10(x.scale)
  }

  /** `x <= n` for a whole number `n`. */
  predicate AtMost(x: Decimal, n: nat)
  {
    x.digits <= n * Pow10(x.scale)
  }

  /** The decimal digits of `n`, as `str(n)` writes them. */
  function ShowNat(n: nat): (s: string)
    ensures s != [] && AllDigits(s)
  {
    if n < 10 then [('0' as int + n) as char]
    else ShowNat(n / 10) + [('0' as int + n % 10) as char]
  }

  // ---------------------------------------------------------------------------
  // Properties
  // ---------------------------------------------------------------------------

  /** Reading digits left to right: `int(a + b) == int(a) * 10^len(b) + int(b)`. */
  lemma {:induction false} DigitsValueAppend(a: string, b: string)
    requires AllDigits(a) && AllDigits(b)
    ensures AllDigits(a + b)
    ensures DigitsValue(a + b) == DigitsValue(a) * Pow10(|b|) + DigitsValue(b)
  {
    assert AllDigits(a + b);
    if b == [] {
      assert a + b == a;
    } else {
      var b' := b[..|b| - 1];
      assert (a + b)[..|a + b| - 1] == a + b';
      DigitsValueAppend(a, b');
      var c := b[|b| - 1] as int - '0' as int;
      assert Pow10(|b|) == 10 * Pow10(|b'|);
      ShiftDigit(DigitsValue(a), Pow10(|b'|), DigitsValue(b'), c);
    }
  }

  lemma ShiftDigit(x: int, p: int, y: int, c: int)
    ensures 10 * (x * p + y) + c == x * (10 * p) + (10 * y + c)
  {
  }

  /** `int(str(n)) == n`. */
  lemma {:induction false} ShowNatValue(n: nat)
    ensures DigitsValue(ShowNat(n)) == n
  {
    if n >= 10 {
      var s := ShowNat(n);
      assert s[..|s| - 1] == ShowNat(n / 10);
      ShowNatValue(n / 10);
    }
  }

  /** A value with two decimal places rounds to itself. */
  lemma HundredthsOfCents(c: nat, scale: nat)
    requires scale == 2
    ensures Hundredths(Decimal(c, scale)) == c
  {
    assert Pow10(scale) == 100;
    assert (c * 100) / 100 == c;
    assert (c * 100) % 100 == 0;
  }

  /** The whole part of what `float()` reads is the number before the dot. */
  lemma ParseRunWholePart(run: string)
    requires forall i :: 0 <= i < |run| ==> DigitsAndDots.Has(run[i])
    requires ParseRun(run).Some?
    ensures ParseRun(run).value.digits / Pow10(ParseRun(run).value.scale) == DigitsValue(WholePart(run))
  {
    var whole, fraction := WholePart(run), FractionPart(run);
    var w, q, f := DigitsValue(whole), Pow10(|fraction|), DigitsValue(fraction);
    DigitsValueAppend(whole, fraction);
    FractionBelowScale(fraction);
    QuotientOfSum(w, q, f);
  }

  /** Which runs `float()` accepts: at most one dot and at least one digit. */
  lemma ParseRunAccepts(run: string)
    requires forall i :: 0 <= i < |run| ==> DigitsAndDots.Has(run[i])
    ensures ParseRun(run).Some? <==> Occurrences(run, '.') <= 1 && exists i :: 0 <= i < |run| && IsDigit(run[i])
  {
    if Occurrences(run, '.') <= 1 {
      RunShape(run);
      DigitsOfShape(WholePart(run), FractionPart(run), run);
    }
  }

  /** A run with at most one dot is its whole part, or its whole part, a dot
      and its fraction part. */
  lemma RunShape(run: string)
    requires forall i :: 0 <= i < |run| ==> DigitsAndDots.Has(run[i])
    requires Occurrences(run, '.') <= 1
    ensures || (run == WholePart(run) && FractionPart(run) == [])
            || run == WholePart(run) + ['.'] + FractionPart(run)
  {
    var parts := Split(run, '.');
    JoinSplit(run, '.');
    if |parts| == 1 {
      assert JoinWith(parts, '.') == parts[0];
    } else {
      assert |parts| == 2;
      assert JoinWith(parts, '.') == parts[0] + ['.'] + parts[1];
    }
  }

  /** A run of that shape holds a digit exactly when one of its parts is non-empty. */
  lemma DigitsOfShape(w: string, f: string, run: string)
    requires AllDigits(w) && AllDigits(f)
    requires (run == w && f == []) || run == w + ['.'] + f
    ensures (w != [] || f != []) <==> exists i :: 0 <= i < |run| && IsDigit(run[i])
  {
    if w != [] {
      assert run[0] == w[0] && IsDigit(run[0]);
    } else if f != [] {
      assert run == ['.'] + f;
      assert run[1] == f[0] && IsDigit(run[1]);
    } else {
      assert run == [] || run == ['.'];
      forall i | 0 <= i < |run|
        ensures !IsDigit(run[i])
      {
        assert run[i] == '.';
      }
    }
  }

  lemma QuotientOfSum(w: nat, p: nat, f: nat)
    requires f < p
    ensures (w * p + f) / p == w
  {
    var n := w * p + f;
    var q, r := n / p, n % p;
    assert n == q * p + r;
    assert (q - w) * p == f - r;
    OnlyZeroMultiple(q - w, p);
  }

  lemma OnlyZeroMultiple(k: int, p: int)
    requires p > 0 && -p < k * p < p
    ensures k == 0
  {
    if k >= 1 {
      MulAtLeast(k, p);
    } else if k <= -1 {
      MulAtLeast(-k, p);
    }
  }

  lemma {:induction false} MulAtLeast(k: int, p: int)
    requires k >= 1 && p > 0
    ensures k * p >= p
  {
    if k > 1 {
      MulAtLeast(k - 1, p);
    }
  }

  lemma {:induction false} FractionBelowScale(f: string)
    requires AllDigits(f)
    ensures DigitsValue(f) < Pow10(|f|)
  {
    if f != [] {
      FractionBelowScale(f[..|f| - 1]);
    }
  }

  /** The digit character for `n < 10`. */
  function Digit(n: nat): (c: char)
    requires n < 10
    ensures IsDigit(c)
  {
    ('0' as int + n) as char
  }

  /** Hundredths `c` written with two decimals, as `f"{c / 100:.2f}"` does. */
  function ShowHundredths(c: nat): (s: string)
  {
    ShowNat(c / 100) + "." + [Digit(c / 10 % 10), Digit(c % 10)]
  }

  /** `float(w + '.' + f)` for digit strings `w` and `f`, not both empty. */
  lemma ParseDotted(w: string, f: string)
    requires AllDigits(w) && AllDigits(f) && (w != [] || f != [])
    ensures forall i :: 0 <= i < |w + "." + f| ==> DigitsAndDots.Has((w + "." + f)[i])
    ensures AllDigits(w + f)
    ensures ParseRun(w + "." + f) == Some(Decimal(DigitsValue(w + f), |f|))
  {
    var run := w + "." + f;
    DottedRun(w, f);
    assert Split(run, '.') == [w, f] by {
      assert '.' !in w && '.' !in f;
      SplitAround(w, '.', f);
      SplitWithout(f, '.');
    }
    assert WholePart(run) == w;
    assert FractionPart(run) == f;
    assert Occurrences(run, '.') == 1;
    DigitsValueAppend(w, f);
  }

  lemma DottedRun(w: string, f: string)
    requires AllDigits(w) && AllDigits(f)
    ensures forall i :: 0 <= i < |w + "." + f| ==> DigitsAndDots.Has((w + "." + f)[i])
  {
    var run := w + "." + f;
    forall i | 0 <= i < |run|
      ensures DigitsAndDots.Has(run[i])
    {
      if i < |w| {
        assert run[i] == w[i];
      } else if i > |w| {
        assert run[i] == f[i - |w| - 1];
      }
    }
  }

  /** `float(w)` for a non-empty digit string `w`. */
  lemma ParseWhole(w: string)
    requires AllDigits(w) && w != []
    ensures forall i :: 0 <= i < |w| ==> DigitsAndDots.Has(w[i])
    ensures ParseRun(w) == Some(Decimal(DigitsValue(w), 0))
  {
    assert forall i :: 0 <= i < |w| ==> DigitsAndDots.Has(w[i]);
    assert '.' !in w by {
      forall i | 0 <= i < |w|
        ensures w[i] != '.'
      {
        assert IsDigit(w[i]);
      }
    }
    SplitWithout(w, '.');
    assert WholePart(w) == w;
    assert FractionPart(w) == [];
    assert Occurrences(w, '.') == 0;
    assert w + [] == w;
  }

  /** Reading back what `ShowHundredths` writes gives the same hundredths. */
  lemma ParseShowHundredths(c: nat)
    ensures forall i :: 0 <= i < |ShowHundredths(c)| ==> DigitsAndDots.Has(ShowHundredths(c)[i])
    ensures ParseRun(ShowHundredths(c)) == Some(Decimal(c, 2))
  {
    var w, f := ShowNat(c / 100), [Digit(c / 10 % 10), Digit(c % 10)];
    assert ShowHundredths(c) == w + "." + f;
    ParseDotted(w, f);
    HundredthsDigits(c);
  }

  /** The digits `ShowHundredths` writes, without the dot, are the number `c`. */
  lemma HundredthsDigits(c: nat)
    ensures AllDigits(ShowNat(c / 100) + [Digit(c / 10 % 10), Digit(c % 10)])
    ensures DigitsValue(ShowNat(c / 100) + [Digit(c / 10 % 10), Digit(c % 10)]) == c
  {
    var w, f := ShowNat(c / 100), [Digit(c / 10 % 10), Digit(c % 10)];
    DigitsValueAppend(w, f);
    ShowNatValue(c / 100);
    TwoDigitsValue(Digit(c / 10 % 10), Digit(c % 10));
    assert |f| == 2 && Pow10(2) == 100;
    assert DigitsValue(f) == 10 * (c / 10 % 10) + c % 10;
    LastTwoDigits(c);
  }

  lemma TwoDigitsValue(a: char, b: char)
    requires IsDigit(a) && IsDigit(b)
    ensures DigitsValue([a, b]) == 10 * (a as int - '0' as int) + (b as int - '0' as int)
  {
    var s := [a, b];
    assert s[..|s| - 1] == [a] && s[|s| - 1] == b;
    assert [a][..0] == [];
    assert DigitsValue([a]) == a as int - '0' as int;
  }

  /** `c == 100 * (c / 100) + 10 * (c / 10 % 10) + c % 10`. */
  lemma LastTwoDigits(c: nat)
    ensures c == 100 * (c / 100) + 10 * (c / 10 % 10) + c % 10
  {
    var t, u := c / 10, c % 10;
    assert c == 10 * t + u;
    var h, v := t / 10, t % 10;
    assert t == 10 * h + v;
    assert c == 100 * h + (10 * v + u);
    QuotientOfSum(h, 100, 10 * v + u);
  }

  /** The mean of two whole numbers, in hundredths, is exact. */
  lemma MeanOfWholeNumbers(a: nat, b: nat)
    ensures MeanHundredths(Decimal(a, 0), Decimal(b, 0)) == 50 * (a + b)
  {
    var h := 50 * (a + b);
    assert Pow10(0) == 1;
    assert (a * 1 + b * 1) * 100 == h * 2 + 0;
    QuotientOfSum(h, 2, 0);
  }
}
