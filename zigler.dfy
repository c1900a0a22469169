/** `zigler.py`: split the fish table into the `"VC"` control rows and the rest, then
    compare every other sample against the controls with Welch's t-test, giving NaN
    wherever either side has fewer than two values. */
module Zigler {
  import opened Collections
  import opened Stats

  /** The sample whose rows are the control group. */
  const CONTROL_SAMPLE: string := "VC"

  /** A row of the fish table as far as the comparison reads it: its `sample` label and its
      `normalized_signal`, the floating-point quotient `area_max / li`. */
  datatype FishRow = FishRow(sample: string, normalizedSignal: Float)

  /** One row of the result table: `{Treatment, T-Statistic, P-Value}`. */
  datatype ResultRow = ResultRow(treatment: string, tStatistic: Float, pValue: Float)

  predicate IsControl(r: FishRow)
  {
    r.sample == CONTROL_SAMPLE
  }

  predicate IsTreated(r: FishRow)
  {
    r.sample != CONTROL_SAMPLE
  }

  function SampleOf(r: FishRow): string
  {
    r.sample
  }

  function SignalOf(r: FishRow): Float
  {
    r.normalizedSignal
  }

  /** `df[df["sample"] == "VC"]`. */
  function ControlGroup(df: seq<FishRow>): seq<FishRow>
  {
    Filter(df, IsControl)
  }

  /** `df[df["sample"] != "VC"]`. */
  function TreatmentGroups(df: seq<FishRow>): seq<FishRow>
  {
    Filter(df, IsTreated)
  }

  /** The two masks split the table: every row lands in exactly one group, and the two
      groups together are the whole table. */
  lemma Partition(df: seq<FishRow>)
    ensures |ControlGroup(df)| + |TreatmentGroups(df)| == |df|
    ensures multiset(ControlGroup(df)) + multiset(TreatmentGroups(df)) == multiset(df)
    ensures forall r :: r in ControlGroup(df) <==> r in df && r.sample == CONTROL_SAMPLE
    ensures forall r :: r in TreatmentGroups(df) <==> r in df && r.sample != CONTROL_SAMPLE
  {
    FilterPartition(df, IsControl, IsTreated);
  }

  /** `control_group["normalized_signal"]`. */
  function ControlValues(df: seq<FishRow>): seq<Float>
  {
    Column(ControlGroup(df), SignalOf)
  }

  /** `df[df["sample"] == treatment]["normalized_signal"]`. */
  function SampleValues(df: seq<FishRow>, treatment: string): seq<Float>
  {
    Column(Filter(df, (r: FishRow) => r.sample == treatment), SignalOf)
  }

  /** `treatment_groups["sample"].unique()`. */
  function UniqueTreatments(df: seq<FishRow>): seq<string>
  {
    Distinct(Column(TreatmentGroups(df), SampleOf))
  }

  /** The loop visits every non-control sample exactly once, never `"VC"`, in order of
      first appearance among the treatment rows. */
  lemma UniqueTreatmentsSpec(df: seq<FishRow>)
    ensures NoDups(UniqueTreatments(df))
    ensures forall t :: t in UniqueTreatments(df) <==> t != CONTROL_SAMPLE && exists r :: r in df && r.sample == t
    ensures forall i, j :: 0 <= i < j < |UniqueTreatments(df)| ==>
      FirstIndex(Column(TreatmentGroups(df), SampleOf), UniqueTreatments(df)[i])
        < FirstIndex(Column(TreatmentGroups(df), SampleOf), UniqueTreatments(df)[j])
  {
    Partition(df);
    ColumnMembers(TreatmentGroups(df), SampleOf);
    DistinctInFirstAppearanceOrder(Column(TreatmentGroups(df), SampleOf));
  }

  /** The result row of one treatment: Welch's test (`equal_var=False`) of the control
      values against the treatment's values when both have more than one value, and NaN
      for both numbers otherwise. */
  predicate IsResultFor(row: ResultRow, df: seq<FishRow>, treatment: string, ttest: TTest<Float>)
  {
    var treatData, controlData := SampleValues(df, treatment), ControlValues(df);
    row.treatment == treatment
    && if |treatData| > 1 && |controlData| > 1
       then TestResult(row.tStatistic, row.pValue) == ttest(controlData, treatData, false)
       else row.tStatistic == NaN && row.pValue == NaN
  }

  /** Rows that follow `UniqueTreatments` one to one name no sample twice and never `"VC"`. */
  lemma RowsFollowUniqueTreatments(results: seq<ResultRow>, df: seq<FishRow>)
    requires |results| == |UniqueTreatments(df)|
    requires forall i :: 0 <= i < |results| ==> results[i].treatment == UniqueTreatments(df)[i]
    ensures forall i :: 0 <= i < |results| ==> results[i].treatment != CONTROL_SAMPLE
    ensures forall i, j :: 0 <= i < j < |results| ==> results[i].treatment != results[j].treatment
  {
    UniqueTreatmentsSpec(df);
    var treatments := UniqueTreatments(df);
    forall k | 0 <= k < |results| ensures results[k].treatment != CONTROL_SAMPLE {
      assert treatments[k] in treatments;
    }
  }

  /** Step 3 of the script: one result per distinct non-control sample, in order. */
  method CompareToControl(df: seq<FishRow>, ttest: TTest<Float>) returns (results: seq<ResultRow>)
    ensures |results| == |UniqueTreatments(df)|
    ensures forall i :: 0 <= i < |results| ==> IsResultFor(results[i], df, UniqueTreatments(df)[i], ttest)
    ensures forall i :: 0 <= i < |results| ==> results[i].treatment != CONTROL_SAMPLE
    ensures forall i, j :: 0 <= i < j < |results| ==> results[i].treatment != results[j].treatment
  {
    var controlGroup := ControlGroup(df);
    var treatmentGroups := TreatmentGroups(df);
    var treatments := Distinct(Column(treatmentGroups, SampleOf));
    results := [];
    var i := 0;
    while i < |treatments|
      invariant 0 <= i <= |treatments|
      invariant |results| == i
      invariant forall k :: 0 <= k < i ==> IsResultFor(results[k], df, treatments[k], ttest)
    {
      var treatment := treatments[i];
      var treatData := SampleValues(df, treatment);
      var controlData := Column(controlGroup, SignalOf);
      var tStat, pVal;
      if |treatData| > 1 && |controlData| > 1 {
        var outcome := ttest(controlData, treatData, false);
        tStat, pVal := outcome.statistic, outcome.pValue;
      } else {
        tStat, pVal := NaN, NaN;
      }
      assert IsResultFor(ResultRow(treatment, tStat, pVal), df, treatment, ttest);
      results := results + [ResultRow(treatment, tStat, pVal)];
      i := i + 1;
    }
    RowsFollowUniqueTreatments(results, df);
  }
}
