/**
 * `validate_comparison_metrics`: a request that asks for a comparison metric
 * (a name ending in `_prev`, `_diff` or `_diff_percent`) must carry a
 * non-empty previous date range.
 */
module Validators {
  import opened Wrappers
  import opened Strings
  import Diffs

  /**
   * The parts of the validated request the check reads. Either key may be
   * absent (`data.get` gives `None`); every other key is passed through as is.
   */
  datatype RequestData = RequestData(metrics: Option<seq<string>>, prevDateRange: Option<map<string, string>>)

  /** Why validation stopped: a field error as DRF reports it, or iterating a missing metric list. */
  datatype ValidationFailure = FieldErrors(errors: map<string, seq<string>>) | MetricsNotIterable

  const ComparisonSuffixes: seq<string> := [Diffs.PrevSuffix, Diffs.DiffSuffix, Diffs.PctSuffix]

  const RequiredMessage: string := "This field is required."

  /** Python truthiness of the previous date range: present and non-empty. */
  predicate Truthy(range: Option<map<string, string>>) {
    range.Some? && |range.value| > 0
  }

  /** `m.endswith(("_prev", "_diff", "_diff_percent"))`. */
  predicate IsComparisonMetric(m: string) {
    exists i :: 0 <= i < |ComparisonSuffixes| && HasSuffix(m, ComparisonSuffixes[i])
  }

  /** `any(m.endswith(comparison_suffixes) for m in metrics)`. */
  function AnyComparison(ms: seq<string>): (b: bool)
    ensures b <==> exists i :: 0 <= i < |ms| && IsComparisonMetric(ms[i])
  {
    if ms == [] then false
    else if IsComparisonMetric(ms[0]) then true
    else
      assert forall i :: 1 <= i < |ms| ==> ms[i] == ms[1..][i - 1];
      AnyComparison(ms[1..])
  }

  /**
   * `validate_comparison_metrics(data)`: the data unchanged, or the field error
   * on `prev_date_range` when a comparison metric is asked for without one.
   */
  function ValidateComparisonMetrics(data: RequestData): (r: Result<RequestData, ValidationFailure>)
    ensures data.metrics.None? ==> r == Failure(MetricsNotIterable)
    ensures data.metrics.Some? ==>
              (r.Failure? <==> (exists i :: 0 <= i < |data.metrics.value| && IsComparisonMetric(data.metrics.value[i]))
                               && !Truthy(data.prevDateRange))
    ensures data.metrics.Some? && r.Failure? ==> r.error == FieldErrors(map["prev_date_range" := [RequiredMessage]])
    ensures r.Success? ==> r.value == data
    ensures data.metrics == Some([]) ==> r == Success(data)
    ensures data.metrics.Some? && Truthy(data.prevDateRange) ==> r == Success(data)
  {
    match data.metrics
    case None => Failure(MetricsNotIterable)
    case Some(ms) =>
      if AnyComparison(ms) && !Truthy(data.prevDateRange) then
        Failure(FieldErrors(map["prev_date_range" := [RequiredMessage]]))
      else Success(data)
  }

  /** The comparison metrics are exactly the names `calculate_diffs` derives from a base metric. */
  lemma ComparisonMetricIsDerivedName(c: string)
    ensures IsComparisonMetric(c) <==> exists m :: c == Diffs.PrevName(m) || c == Diffs.DiffName(m) || c == Diffs.PctName(m)
  {
    if IsComparisonMetric(c) {
      ComparisonMetricHasBase(c);
    }
    if exists m :: c == Diffs.PrevName(m) || c == Diffs.DiffName(m) || c == Diffs.PctName(m) {
      var m :| c == Diffs.PrevName(m) || c == Diffs.DiffName(m) || c == Diffs.PctName(m);
      DerivedNamesAreComparisons(m);
    }
  }

  lemma ComparisonMetricHasBase(c: string)
    requires IsComparisonMetric(c)
    ensures exists m :: c == Diffs.PrevName(m) || c == Diffs.DiffName(m) || c == Diffs.PctName(m)
  {
    var i :| 0 <= i < |ComparisonSuffixes| && HasSuffix(c, ComparisonSuffixes[i]);
    StripThenAppend(c, ComparisonSuffixes[i]);
    var m := StripSuffix(c, ComparisonSuffixes[i]);
    if i == 0 {
      assert c == Diffs.PrevName(m);
    } else if i == 1 {
      assert c == Diffs.DiffName(m);
    } else {
      assert c == Diffs.PctName(m);
    }
  }

  lemma DerivedNamesAreComparisons(m: string)
    ensures IsComparisonMetric(Diffs.PrevName(m))
    ensures IsComparisonMetric(Diffs.DiffName(m))
    ensures IsComparisonMetric(Diffs.PctName(m))
  {
    Diffs.NameParts(m);
    assert HasSuffix(Diffs.PrevName(m), ComparisonSuffixes[0]);
    assert HasSuffix(Diffs.DiffName(m), ComparisonSuffixes[1]);
    assert HasSuffix(Diffs.PctName(m), ComparisonSuffixes[2]);
  }

  /**
   * The check looks at name endings only: whatever a name contains, a last
   * character that ends none of the suffixes (`v`, `f`, `t`) makes it an
   * ordinary metric, so `turnover_diff_x` needs no previous period.
   */
  lemma SuffixesOnly(m: string, tail: string)
    requires |tail| > 0 && tail[|tail| - 1] != 'v' && tail[|tail| - 1] != 'f' && tail[|tail| - 1] != 't'
    ensures !IsComparisonMetric(m + tail)
  {
    var c := m + tail;
    assert c[|c| - 1] == tail[|tail| - 1];
  }

  /** The outcome does not depend on the order (or multiplicity pattern) of the metric list. */
  lemma {:induction false} ValidationIgnoresOrder(ms: seq<string>, ns: seq<string>, prevDateRange: Option<map<string, string>>)
    requires multiset(ms) == multiset(ns)
    ensures ValidateComparisonMetrics(RequestData(Some(ms), prevDateRange)).Success?
            == ValidateComparisonMetrics(RequestData(Some(ns), prevDateRange)).Success?
  {
    if AnyComparison(ms) {
      var i :| 0 <= i < |ms| && IsComparisonMetric(ms[i]);
      assert ms[i] in multiset(ns);
      var j :| 0 <= j < |ns| && ns[j] == ms[i];
    }
    if AnyComparison(ns) {
      var j :| 0 <= j < |ns| && IsComparisonMetric(ns[j]);
      assert ns[j] in multiset(ms);
      var i :| 0 <= i < |ms| && ms[i] == ns[j];
    }
  }
}
