/** The post-load checker (validate_etl.py): the table counts with their
    fallback for a failed query, the data-quality counts, and the
    PASS / WARNING / FAIL verdicts of the report. The queries themselves are
    inputs: a count query answers `Some(n)`, or `None` when it raises. */
module Validation {

  import opened Wrappers
  import opened Loader

  datatype Status = Pass | Warning | Fail

  /** The four data-quality checks. */
  datatype Check = WithoutPrice | WithoutRating | DuplicateProducts | OrphanedMetrics

  /** The `quality_checks` dictionary: an entry is absent when its query
      raised. */
  datatype QualityChecks = QualityChecks(
    withoutPrice: Option<nat>,
    withoutRating: Option<nat>,
    duplicateProducts: Option<nat>,
    orphanedMetrics: Option<nat>)

  /** One entry of the `table_counts` dictionary, in insertion order. */
  datatype TableCount = TableCount(table: string, count: nat)

  /** A line of the report that carries a verdict. */
  datatype ReportLine =
    | CountLine(table: string, count: nat, status: Status)
    | CheckLine(check: Check, count: nat, status: Status)
    | OverallLine(status: Status)

  /** The tables `validate_table_counts` counts, in its order. */
  const Tables: seq<string> := ["categories", "companies", "products", "product_metrics"]

  // ---------------------------------------------------------------------------
  // verdict rules
  // ---------------------------------------------------------------------------

  /** The label of a table line. */
  function CountStatus(count: nat): (s: Status)
    ensures s == Pass <==> count > 0
    ensures s == Fail <==> count == 0
  {
    if count > 0 then Pass else Fail
  }

  /** Whether a positive count of this check fails the run, rather than
      only warning about it. */
  predicate IsFatal(check: Check)
  {
    check == DuplicateProducts || check == OrphanedMetrics
  }

  /** The label of a data-quality line. */
  function CheckStatus(check: Check, count: nat): (s: Status)
    ensures s == Pass <==> count == 0
    ensures s == Warning <==> !IsFatal(check) && count > 0
    ensures s == Fail <==> IsFatal(check) && count > 0
  {
    if count == 0 then Pass
    else if IsFatal(check) then Fail
    else Warning
  }

  /** The entry of one check. */
  function Entry(checks: QualityChecks, check: Check): (answer: Option<nat>)
  {
    match check
    case WithoutPrice => checks.withoutPrice
    case WithoutRating => checks.withoutRating
    case DuplicateProducts => checks.duplicateProducts
    case OrphanedMetrics => checks.orphanedMetrics
  }

  /** `checks.get(check, 0)`: a check whose query failed counts as 0. */
  function CountOrZero(checks: QualityChecks, check: Check): (n: nat)
    ensures Entry(checks, check).Some? ==> n == Entry(checks, check).value
    ensures Entry(checks, check).None? ==> n == 0
  {
    var answer := Entry(checks, check);
    if answer.Some? then answer.value else 0
  }

  /** The count of a check as the overall verdict sees it: 0 when there are
      no quality results at all. */
  function Reported(qualityChecks: Option<QualityChecks>, check: Check): (n: nat)
    ensures qualityChecks.None? ==> n == 0
    ensures qualityChecks.Some? ==> n == CountOrZero(qualityChecks.value, check)
  {
    if qualityChecks.Some? then CountOrZero(qualityChecks.value, check) else 0
  }

  /** Some table has no rows. */
  predicate HasEmptyTable(tableCounts: Option<seq<TableCount>>)
  {
    tableCounts.Some? && exists i :: 0 <= i < |tableCounts.value| && tableCounts.value[i].count == 0
  }

  /** The verdict of the quality checks alone, as the first half of the
      overall status computes it. */
  function QualityVerdict(checks: QualityChecks): (s: Status)
  {
    if CountOrZero(checks, DuplicateProducts) > 0 || CountOrZero(checks, OrphanedMetrics) > 0 then Fail
    else if CountOrZero(checks, WithoutPrice) > 0 || CountOrZero(checks, WithoutRating) > 0 then Warning
    else Pass
  }

  /** The overall status: an empty table overrides whatever the quality
      checks concluded. The contract states the verdict by priority: FAIL
      for an empty table, a duplicate or an orphan; otherwise WARNING for a
      product without price or rating; otherwise PASS. */
  function OverallStatus(tableCounts: Option<seq<TableCount>>, qualityChecks: Option<QualityChecks>)
    : (s: Status)
    ensures s == Fail <==>
      HasEmptyTable(tableCounts)
      || Reported(qualityChecks, DuplicateProducts) > 0 || Reported(qualityChecks, OrphanedMetrics) > 0
    ensures s == Warning <==>
      !HasEmptyTable(tableCounts)
      && Reported(qualityChecks, DuplicateProducts) == 0 && Reported(qualityChecks, OrphanedMetrics) == 0
      && (Reported(qualityChecks, WithoutPrice) > 0 || Reported(qualityChecks, WithoutRating) > 0)
    ensures s == Pass <==>
      !HasEmptyTable(tableCounts)
      && Reported(qualityChecks, DuplicateProducts) == 0 && Reported(qualityChecks, OrphanedMetrics) == 0
      && Reported(qualityChecks, WithoutPrice) == 0 && Reported(qualityChecks, WithoutRating) == 0
  {
    var fromChecks := if qualityChecks.Some? then QualityVerdict(qualityChecks.value) else Pass;
    if HasEmptyTable(tableCounts) then Fail else fromChecks
  }

  // ---------------------------------------------------------------------------
  // report layout
  // ---------------------------------------------------------------------------

  /** The table section: one labelled line per count, in dictionary order. */
  function CountLines(counts: seq<TableCount>): (lines: seq<ReportLine>)
    ensures |lines| == |counts|
    ensures forall i :: 0 <= i < |counts| ==>
      lines[i].CountLine? && lines[i].table == counts[i].table && lines[i].count == counts[i].count
      && (lines[i].status == Pass <==> counts[i].count > 0)
      && (lines[i].status == Fail <==> counts[i].count == 0)
  {
    if counts == [] then []
    else
      var last := counts[|counts| - 1];
      CountLines(counts[..|counts| - 1]) + [CountLine(last.table, last.count, CountStatus(last.count))]
  }

  /** The line of one quality check, present only when its query succeeded. */
  function CheckLineOf(checks: QualityChecks, check: Check): (lines: seq<ReportLine>)
    ensures Entry(checks, check).None? ==> lines == []
    ensures Entry(checks, check).Some? ==>
      var count := Entry(checks, check).value;
      && |lines| == 1 && lines[0].CheckLine? && lines[0].check == check && lines[0].count == count
      && (lines[0].status == Pass <==> count == 0)
      && (lines[0].status == Warning <==> !IsFatal(check) && count > 0)
      && (lines[0].status == Fail <==> IsFatal(check) && count > 0)
  {
    var answer := Entry(checks, check);
    if answer.Some? then [CheckLine(check, answer.value, CheckStatus(check, answer.value))] else []
  }

  /** The quality section, in the fixed order of the report. */
  function CheckLines(checks: QualityChecks): (lines: seq<ReportLine>)
    ensures |lines| <= 4
  {
    CheckLineOf(checks, WithoutPrice) + CheckLineOf(checks, WithoutRating)
    + CheckLineOf(checks, DuplicateProducts) + CheckLineOf(checks, OrphanedMetrics)
  }

  /** What `validate_table_counts` records for one answer: the count, or 0
      when the query raised. */
  function FallbackCount(answer: Option<nat>): (n: nat)
    ensures answer.None? ==> n == 0
    ensures answer.Some? ==> n == answer.value
  {
    if answer.Some? then answer.value else 0
  }

  /** The `table_counts` dictionary for these query answers. */
  function CountsOf(query: string -> Option<nat>): (counts: seq<TableCount>)
    ensures |counts| == |Tables|
    ensures forall i :: 0 <= i < |Tables| ==>
      counts[i].table == Tables[i] && counts[i].count == FallbackCount(query(Tables[i]))
  {
    seq(|Tables|, i requires 0 <= i < |Tables| => TableCount(Tables[i], FallbackCount(query(Tables[i]))))
  }

  // ---------------------------------------------------------------------------
  // the validator
  // ---------------------------------------------------------------------------

  /** `ETLValidator`, with the two entries of `validation_results` the
      report reads. */
  class Validator {
    var tableCounts: Option<seq<TableCount>>
    var qualityChecks: Option<QualityChecks>

    constructor ()
      ensures tableCounts.None? && qualityChecks.None?
    {
      tableCounts, qualityChecks := None, None;
    }

    /** `validate_table_counts`: one count per table, 0 for a query that
        raised; the result is also stored. */
    method ValidateTableCounts(query: string -> Option<nat>) returns (counts: seq<TableCount>)
      modifies this
      ensures counts == CountsOf(query)
      ensures tableCounts == Some(counts)
      ensures qualityChecks == old(qualityChecks)
    {
      counts := [];
      var i := 0;
      while i < |Tables|
        invariant 0 <= i <= |Tables|
        invariant |counts| == i
        invariant forall k :: 0 <= k < i ==>
          counts[k].table == Tables[k] && counts[k].count == FallbackCount(query(Tables[k]))
      {
        var table := Tables[i];
        var answer := query(table);
        var count := 0;
        if answer.Some? {
          count := answer.value;
        }
        counts := counts + [TableCount(table, count)];
        i := i + 1;
      }
      tableCounts := Some(counts);
    }

    /** `validate_data_quality` on its query answers: a check whose query
        raised leaves no entry. */
    method ValidateDataQuality(query: Check -> Option<nat>) returns (checks: QualityChecks)
      modifies this
      ensures forall c :: Entry(checks, c) == query(c)
      ensures qualityChecks == Some(checks)
      ensures tableCounts == old(tableCounts)
    {
      checks := QualityChecks(None, None, None, None);
      var answer := query(WithoutPrice);
      if answer.Some? {
        checks := checks.(withoutPrice := Some(answer.value));
      }
      answer := query(WithoutRating);
      if answer.Some? {
        checks := checks.(withoutRating := Some(answer.value));
      }
      answer := query(DuplicateProducts);
      if answer.Some? {
        checks := checks.(duplicateProducts := Some(answer.value));
      }
      answer := query(OrphanedMetrics);
      if answer.Some? {
        checks := checks.(orphanedMetrics := Some(answer.value));
      }
      qualityChecks := Some(checks);
    }

    /** `generate_report`: the labelled lines of the stored results,
        followed by the overall status. The banner, the timestamp and the
        column layout are not part of the model. */
    method GenerateReport() returns (report: seq<ReportLine>)
      ensures report ==
        (if tableCounts.Some? then CountLines(tableCounts.value) else [])
        + (if qualityChecks.Some? then CheckLines(qualityChecks.value) else [])
        + [OverallLine(OverallStatus(tableCounts, qualityChecks))]
    {
      var tableSection := TableSection();
      var checkSection := QualitySection();
      var overall := DetermineOverallStatus();
      report := tableSection + checkSection + [OverallLine(overall)];
    }

    /** The table-count part of the report. */
    method TableSection() returns (lines: seq<ReportLine>)
      ensures lines == if tableCounts.Some? then CountLines(tableCounts.value) else []
    {
      lines := [];
      if tableCounts.Some? {
        var counts := tableCounts.value;
        var i := 0;
        while i < |counts|
          invariant 0 <= i <= |counts|
          invariant lines == CountLines(counts[..i])
        {
          var entry := counts[i];
          var status := if entry.count > 0 then Pass else Fail;
          assert counts[..i + 1][..i] == counts[..i];
          lines := lines + [CountLine(entry.table, entry.count, status)];
          i := i + 1;
        }
        assert counts[..i] == counts;
      }
    }

    /** The data-quality part of the report. */
    method QualitySection() returns (lines: seq<ReportLine>)
      ensures lines == if qualityChecks.Some? then CheckLines(qualityChecks.value) else []
    {
      lines := [];
      if qualityChecks.Some? {
        var checks := qualityChecks.value;
        lines := lines + CheckLineOf(checks, WithoutPrice);
        lines := lines + CheckLineOf(checks, WithoutRating);
        lines := lines + CheckLineOf(checks, DuplicateProducts);
        lines := lines + CheckLineOf(checks, OrphanedMetrics);
      }
    }

    /** The overall status, decided first on the quality checks and then
        overridden by an empty table. */
    method DetermineOverallStatus() returns (overall: Status)
      ensures overall == OverallStatus(tableCounts, qualityChecks)
    {
      overall := Pass;
      if qualityChecks.Some? {
        var checks := qualityChecks.value;
        if CountOrZero(checks, DuplicateProducts) > 0 || CountOrZero(checks, OrphanedMetrics) > 0 {
          overall := Fail;
        } else if CountOrZero(checks, WithoutPrice) > 0 || CountOrZero(checks, WithoutRating) > 0 {
          overall := Warning;
        }
      }
      if tableCounts.Some? {
        var counts := tableCounts.value;
        var i := 0;
        while i < |counts| && counts[i].count != 0
          invariant 0 <= i <= |counts|
          invariant forall k :: 0 <= k < i ==> counts[k].count != 0
        {
          i := i + 1;
        }
        if i < |counts| {
          overall := Fail;
        }
      }
    }
  }

  // ---------------------------------------------------------------------------
  // properties
  // ---------------------------------------------------------------------------

  /** A count query that raises is recorded as 0 and so fails the run,
      whatever the quality checks say. */
  lemma QueryErrorFails(query: string -> Option<nat>, table: nat, qualityChecks: Option<QualityChecks>)
    requires table < |Tables| && query(Tables[table]).None?
    ensures OverallStatus(Some(CountsOf(query)), qualityChecks) == Fail
  {
    assert CountsOf(query)[table].count == 0;
  }

  /** With every count query answered, the run fails on a table exactly
      when that table is empty. */
  lemma EmptyTableFails(query: string -> Option<nat>, qualityChecks: Option<QualityChecks>)
    requires forall i :: 0 <= i < |Tables| ==> query(Tables[i]).Some?
    ensures HasEmptyTable(Some(CountsOf(query))) <==>
      exists i :: 0 <= i < |Tables| && query(Tables[i]) == Some(0)
  {
    var counts := CountsOf(query);
    if HasEmptyTable(Some(counts)) {
      var i :| 0 <= i < |counts| && counts[i].count == 0;
      assert query(Tables[i]) == Some(0);
    }
    if exists i :: 0 <= i < |Tables| && query(Tables[i]) == Some(0) {
      var i :| 0 <= i < |Tables| && query(Tables[i]) == Some(0);
      assert counts[i].count == 0;
    }
  }

  /** Without any stored result the report passes. */
  lemma NothingStoredPasses()
    ensures OverallStatus(None, None) == Pass
  {
  }

  // ---------------------------------------------------------------------------
  // the checks on a loaded store
  // ---------------------------------------------------------------------------

  /** Products whose `price IS NULL OR price = 0`. */
  function ProductsWithoutPrice(products: map<string, ProductRow>): (ids: set<string>)
    ensures forall id :: id in ids <==>
      id in products && (products[id].price.None? || products[id].price == Some(0))
  {
    set id | id in products && (products[id].price.None? || products[id].price == Some(0))
  }

  /** Metrics rows whose `avg_rating IS NULL`. */
  function MetricsWithoutRating(metrics: map<string, MetricsRow>): (ids: set<string>)
    ensures forall id :: id in ids <==> id in metrics && metrics[id].avgRating.None?
  {
    set id | id in metrics && metrics[id].avgRating.None?
  }

  /** The answers of the four quality queries on a store. The products
      table holds one row per `product_id`, so the duplicate query finds no
      group; the orphan query counts the metrics rows without a product. */
  function QualityOf(products: map<string, ProductRow>, metrics: map<string, MetricsRow>)
    : (checks: QualityChecks)
    ensures checks.withoutPrice.Some? && checks.withoutRating.Some?
    ensures checks.duplicateProducts.Some? && checks.orphanedMetrics.Some?
    ensures checks.withoutPrice == Some(0) <==> ProductsWithoutPrice(products) == {}
    ensures checks.withoutRating == Some(0) <==> MetricsWithoutRating(metrics) == {}
    ensures checks.orphanedMetrics == Some(0) <==> metrics.Keys <= products.Keys
    ensures checks.duplicateProducts == Some(0)
  {
    var orphans := metrics.Keys - products.Keys;
    NoneLeftOver(metrics.Keys, products.Keys);
    QualityChecks(
      withoutPrice := Some(|ProductsWithoutPrice(products)|),
      withoutRating := Some(|MetricsWithoutRating(metrics)|),
      duplicateProducts := Some(0),
      orphanedMetrics := Some(|orphans|))
  }

  /** The numbers the report prints for these checks: how many products have
      no price, how many metrics rows have no rating, and how many metrics
      rows have no product. */
  lemma QualityCounts(products: map<string, ProductRow>, metrics: map<string, MetricsRow>)
    ensures var checks := QualityOf(products, metrics);
      && checks.withoutPrice == Some(|ProductsWithoutPrice(products)|)
      && checks.withoutRating == Some(|MetricsWithoutRating(metrics)|)
      && checks.orphanedMetrics == Some(|metrics.Keys - products.Keys|)
  {
  }

  /** A difference is empty exactly when the first set is inside the second. */
  lemma NoneLeftOver(a: set<string>, b: set<string>)
    ensures a - b == {} <==> a <= b
  {
    if a <= b {
      forall k | k in a - b
        ensures false
      {
      }
      assert a - b == {};
    }
    if a - b == {} {
      forall k | k in a
        ensures k in b
      {
        assert k !in a - b;
      }
    }
  }

  /** The checks the loader maintains: on a valid store neither fatal
      check fires, so the report fails only for an empty table, and warns
      exactly when some product lacks a price or some metrics row a rating. */
  lemma LoadedStoreVerdict(db: Database, tableCounts: Option<seq<TableCount>>)
    requires db.Valid()
    ensures var checks := QualityOf(db.products, db.metrics);
      && CheckStatus(DuplicateProducts, CountOrZero(checks, DuplicateProducts)) == Pass
      && CheckStatus(OrphanedMetrics, CountOrZero(checks, OrphanedMetrics)) == Pass
      && (OverallStatus(tableCounts, Some(checks)) == Fail <==> HasEmptyTable(tableCounts))
      && (OverallStatus(tableCounts, Some(checks)) == Warning <==>
            !HasEmptyTable(tableCounts)
            && (ProductsWithoutPrice(db.products) != {} || MetricsWithoutRating(db.metrics) != {}))
  {
  }
}
