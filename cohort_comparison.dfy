/** The second half of `zebra_analysis.py`: the two cohort tables are concatenated, the
    result is grouped by cell line, and within each group every treatment after the
    first in the declared order is t-tested against the `"control"` rows. */
module CohortComparison {
  import opened Wrappers
  import opened Collections
  import opened Strings
  import opened Stats
  import opened SignalExtraction

  /** The label whose rows every comparison uses as its baseline. */
  const CONTROL_LABEL: string := "control"

  /** The declared treatment vocabulary, which is also the plot and comparison order. */
  const TREATMENTS: seq<string> := ["control", "LS", "RU", "VA", "VC", "VR"]

  /** One row of the comparison table: `{cell_line, treatment, p_value, significance}`. */
  datatype ComparisonRow = ComparisonRow(cellLine: string, treatment: string, pValue: Float, significance: Float)

  /** A table built from no records has no columns, so grouping it by `cell_line` fails. */
  datatype Error = MissingCellLineColumn

  /** `pd.concat([df_nomo, df_molm], ignore_index=True)`. */
  function Combine(nomo: seq<SignalRecord>, molm: seq<SignalRecord>): (all: seq<SignalRecord>)
    ensures |all| == |nomo| + |molm|
    ensures all[..|nomo|] == nomo && all[|nomo|..] == molm
  {
    nomo + molm
  }

  function CellLineOf(r: SignalRecord): string
  {
    r.cellLine
  }

  function SignalOf(r: SignalRecord): nat
  {
    r.signalSum
  }

  function Identity(s: string): string
  {
    s
  }

  /** The keys of `groupby("cell_line")`: the distinct cell lines in sorted order. */
  function GroupKeys(table: seq<SignalRecord>): seq<string>
  {
    SortBy(Distinct(Column(table, CellLineOf)), Identity)
  }

  /** There is one group per cell line that occurs in the table, each once, in sorted order. */
  lemma GroupKeysSpec(table: seq<SignalRecord>)
    ensures NoDups(GroupKeys(table)) && SortedBy(GroupKeys(table), Identity)
    ensures forall k :: k in GroupKeys(table) <==> exists r :: r in table && r.cellLine == k
  {
    var distinct := Distinct(Column(table, CellLineOf));
    var keys := SortBy(distinct, Identity);
    SortBySpec(distinct, Identity);
    NoDupsPermutation(distinct, keys);
    assert forall k :: k in keys <==> k in multiset(keys);
    assert forall k :: k in distinct <==> k in multiset(distinct);
    ColumnMembers(table, CellLineOf);
  }

  /** The rows of one group, in table order. */
  function GroupRows(table: seq<SignalRecord>, cellLine: string): seq<SignalRecord>
  {
    Filter(table, (r: SignalRecord) => r.cellLine == cellLine)
  }

  /** `df_sub[df_sub["treatment"] == treatment]["signal_sum"]`. */
  function ValuesFor(group: seq<SignalRecord>, treatment: string): seq<nat>
  {
    Column(Filter(group, (r: SignalRecord) => r.treatment == treatment), SignalOf)
  }

  /** `treatment_order[1:]`, with Python's slice of an empty list. */
  function Compared(order: seq<string>): seq<string>
  {
    if |order| == 0 then [] else order[1..]
  }

  /** The row appended for one (group, treatment) pair: the p-value of the equal-variance
      t-test of the group's control values against its values for the treatment, and
      the same p-value again as the significance. */
  function RowFor(cellLine: string, group: seq<SignalRecord>, treatment: string, ttest: TTest<nat>): ComparisonRow
  {
    var pval := ttest(ValuesFor(group, CONTROL_LABEL), ValuesFor(group, treatment), true).pValue;
    ComparisonRow(cellLine, treatment, pval, pval)
  }

  /** The rows the inner loop appends for one group. */
  function GroupPlan(cellLine: string, table: seq<SignalRecord>, compared: seq<string>, ttest: TTest<nat>): seq<ComparisonRow>
  {
    seq(|compared|, j requires 0 <= j < |compared| => RowFor(cellLine, GroupRows(table, cellLine), compared[j], ttest))
  }

  /** The rows the outer loop appends for the groups `keys`, in this order. */
  function PlanOver(keys: seq<string>, table: seq<SignalRecord>, compared: seq<string>, ttest: TTest<nat>): seq<ComparisonRow>
  {
    if keys == [] then []
    else PlanOver(keys[..|keys| - 1], table, compared, ttest) + GroupPlan(keys[|keys| - 1], table, compared, ttest)
  }

  /** The whole comparison table of a non-empty signal table. */
  function Plan(table: seq<SignalRecord>, order: seq<string>, ttest: TTest<nat>): seq<ComparisonRow>
  {
    PlanOver(GroupKeys(table), table, Compared(order), ttest)
  }

  /** The position of the row for group `g` and compared label `j` when every group
      contributes `width` rows. */
  function RowIndex(g: nat, j: nat, width: nat, groups: nat): (k: nat)
    requires g < groups && j < width
    ensures k < groups * width
  {
    MulMonotone(g + 1, groups, width);
    g * width + j
  }

  lemma MulMonotone(a: nat, b: nat, n: nat)
    requires a <= b
    ensures a * n <= b * n
  {
  }

  lemma {:induction false} PlanOverLength(keys: seq<string>, table: seq<SignalRecord>, compared: seq<string>, ttest: TTest<nat>)
    ensures |PlanOver(keys, table, compared, ttest)| == |keys| * |compared|
  {
    if keys != [] {
      var m, n := |keys|, |compared|;
      PlanOverLength(keys[..m - 1], table, compared, ttest);
      assert (m - 1) * n + n == m * n;
    }
  }

  /** Row `g * width + j` of the table is the comparison of group `g` with compared label `j`. */
  lemma {:induction false} PlanOverAt(keys: seq<string>, table: seq<SignalRecord>, compared: seq<string>, ttest: TTest<nat>, g: nat, j: nat)
    requires g < |keys| && j < |compared|
    ensures |PlanOver(keys, table, compared, ttest)| == |keys| * |compared|
    ensures PlanOver(keys, table, compared, ttest)[RowIndex(g, j, |compared|, |keys|)]
         == RowFor(keys[g], GroupRows(table, keys[g]), compared[j], ttest)
  {
    var m, n := |keys|, |compared|;
    var init := keys[..m - 1];
    PlanOverLength(keys, table, compared, ttest);
    PlanOverLength(init, table, compared, ttest);
    var prev := PlanOver(init, table, compared, ttest);
    assert |prev| == (m - 1) * n;
    if g < m - 1 {
      PlanOverAt(init, table, compared, ttest, g, j);
      assert init[g] == keys[g];
      assert RowIndex(g, j, n, m) == RowIndex(g, j, n, m - 1);
    } else {
      assert g * n == |prev|;
    }
  }

  /** The comparison table has one row per (group, compared treatment) pair, groups in
      sorted cell-line order and treatments in declared order; every row's significance
      is its p-value; a `"control"` that is not among the compared labels is never
      compared with itself. */
  lemma PlanRows(table: seq<SignalRecord>, order: seq<string>, ttest: TTest<nat>)
    ensures |Plan(table, order, ttest)| == |GroupKeys(table)| * |Compared(order)|
    ensures forall g, j :: 0 <= g < |GroupKeys(table)| && 0 <= j < |Compared(order)| ==>
      Plan(table, order, ttest)[RowIndex(g, j, |Compared(order)|, |GroupKeys(table)|)]
        == RowFor(GroupKeys(table)[g], GroupRows(table, GroupKeys(table)[g]), Compared(order)[j], ttest)
    ensures forall row :: row in Plan(table, order, ttest) ==>
      row.significance == row.pValue && row.treatment in Compared(order) && row.cellLine in GroupKeys(table)
    ensures CONTROL_LABEL !in Compared(order) ==>
      forall row :: row in Plan(table, order, ttest) ==> row.treatment != CONTROL_LABEL
  {
    PlanShape(table, order, ttest);
    PlanRowFields(GroupKeys(table), table, Compared(order), ttest);
  }

  /** Where each comparison row sits in the table of `Plan`. */
  lemma PlanShape(table: seq<SignalRecord>, order: seq<string>, ttest: TTest<nat>)
    ensures |Plan(table, order, ttest)| == |GroupKeys(table)| * |Compared(order)|
    ensures forall g, j :: 0 <= g < |GroupKeys(table)| && 0 <= j < |Compared(order)| ==>
      Plan(table, order, ttest)[RowIndex(g, j, |Compared(order)|, |GroupKeys(table)|)]
        == RowFor(GroupKeys(table)[g], GroupRows(table, GroupKeys(table)[g]), Compared(order)[j], ttest)
  {
    var keys, compared := GroupKeys(table), Compared(order);
    PlanOverLength(keys, table, compared, ttest);
    forall g, j | 0 <= g < |keys| && 0 <= j < |compared|
      ensures Plan(table, order, ttest)[RowIndex(g, j, |compared|, |keys|)]
           == RowFor(keys[g], GroupRows(table, keys[g]), compared[j], ttest)
    {
      PlanOverAt(keys, table, compared, ttest, g, j);
    }
  }

  lemma {:induction false} PlanRowFields(keys: seq<string>, table: seq<SignalRecord>, compared: seq<string>, ttest: TTest<nat>)
    ensures forall row :: row in PlanOver(keys, table, compared, ttest) ==>
      row.significance == row.pValue && row.treatment in compared && row.cellLine in keys
  {
    if keys != [] {
      var init := keys[..|keys| - 1];
      PlanRowFields(init, table, compared, ttest);
      assert forall k :: k in init ==> k in keys;
    }
  }

  /** With the declared vocabulary, the five labels after `"control"` are compared, and
      `"control"` is not one of them. */
  lemma DeclaredOrderComparisons()
    ensures Compared(TREATMENTS) == ["LS", "RU", "VA", "VC", "VR"]
    ensures CONTROL_LABEL !in Compared(TREATMENTS)
  {
  }

  lemma DistinctOfTwoRuns(a: seq<string>, b: seq<string>, x: string, y: string)
    requires a != [] && b != [] && x != y
    requires forall v :: v in a ==> v == x
    requires forall v :: v in b ==> v == y
    ensures Distinct(a + b) == [x, y]
  {
    DistinctAppendRun([], a, x);
    assert [] + a == a;
    DistinctAppendRun(a, b, y);
  }

  lemma CellLinesSorted()
    ensures SortBy(["NOMO-1", "MOLM-13"], Identity) == ["MOLM-13", "NOMO-1"]
  {
  }

  /** The group of a cell line present in only one of two concatenated tables is that table. */
  lemma GroupOfOneSide(left: seq<SignalRecord>, right: seq<SignalRecord>, cellLine: string, takeLeft: bool)
    requires forall r :: r in left ==> (r.cellLine == cellLine) == takeLeft
    requires forall r :: r in right ==> (r.cellLine == cellLine) == !takeLeft
    ensures GroupRows(left + right, cellLine) == if takeLeft then left else right
  {
    var p := (r: SignalRecord) => r.cellLine == cellLine;
    FilterConcat(left, right, p);
    if takeLeft {
      FilterKeepsAll(left, p);
      FilterKeepsNone(right, p);
      assert Filter(left + right, p) == left + [];
    } else {
      FilterKeepsNone(left, p);
      FilterKeepsAll(right, p);
      assert Filter(left + right, p) == [] + right;
    }
  }

  /** The group keys of the combined table: MOLM-13 first, because keys come sorted. */
  lemma CombinedCohortKeys(nomo: seq<SignalRecord>, molm: seq<SignalRecord>)
    requires nomo != [] && molm != []
    requires forall r :: r in nomo ==> r.cellLine == "NOMO-1"
    requires forall r :: r in molm ==> r.cellLine == "MOLM-13"
    ensures GroupKeys(Combine(nomo, molm)) == ["MOLM-13", "NOMO-1"]
  {
    var a, b := Column(nomo, CellLineOf), Column(molm, CellLineOf);
    ColumnConcat(nomo, molm, CellLineOf);
    assert forall x :: x in a ==> x == "NOMO-1";
    assert forall x :: x in b ==> x == "MOLM-13";
    DistinctOfTwoRuns(a, b, "NOMO-1", "MOLM-13");
    CellLinesSorted();
  }

  /** Grouping the combined table of the two cohorts gives back the two cohort tables,
      MOLM-13 first because groups come in sorted key order. */
  lemma CombinedCohortGroups(nomo: seq<SignalRecord>, molm: seq<SignalRecord>)
    requires nomo != [] && molm != []
    requires forall r :: r in nomo ==> r.cellLine == "NOMO-1"
    requires forall r :: r in molm ==> r.cellLine == "MOLM-13"
    ensures GroupKeys(Combine(nomo, molm)) == ["MOLM-13", "NOMO-1"]
    ensures GroupRows(Combine(nomo, molm), "MOLM-13") == molm
    ensures GroupRows(Combine(nomo, molm), "NOMO-1") == nomo
  {
    CombinedCohortKeys(nomo, molm);
    GroupOfOneSide(nomo, molm, "MOLM-13", false);
    GroupOfOneSide(nomo, molm, "NOMO-1", true);
  }

  lemma GroupPlanStep(cellLine: string, table: seq<SignalRecord>, compared: seq<string>, ttest: TTest<nat>, j: nat)
    requires j < |compared|
    ensures GroupPlan(cellLine, table, compared, ttest)[..j + 1]
         == GroupPlan(cellLine, table, compared, ttest)[..j] + [RowFor(cellLine, GroupRows(table, cellLine), compared[j], ttest)]
  {
  }

  lemma PlanOverStep(keys: seq<string>, table: seq<SignalRecord>, compared: seq<string>, ttest: TTest<nat>, i: nat)
    requires i < |keys|
    ensures PlanOver(keys[..i + 1], table, compared, ttest)
         == PlanOver(keys[..i], table, compared, ttest) + GroupPlan(keys[i], table, compared, ttest)
  {
    assert keys[..i + 1][..i] == keys[..i];
  }

  /** The t-test loop: for each cell-line group, in sorted order, and each label of
      `treatment_order[1:]`, in order, append the comparison row. */
  method CompareCohorts(dfAll: seq<SignalRecord>, treatmentOrder: seq<string>, ttest: TTest<nat>)
    returns (result: Result<seq<ComparisonRow>, Error>)
    ensures result.Failure? <==> dfAll == []
    ensures result.Success? ==> result.value == Plan(dfAll, treatmentOrder, ttest)
  {
    if dfAll == [] {
      return Failure(MissingCellLineColumn);
    }
    var keys := GroupKeys(dfAll);
    var compared := Compared(treatmentOrder);
    var ttestResults: seq<ComparisonRow> := [];
    var i := 0;
    while i < |keys|
      invariant 0 <= i <= |keys|
      invariant ttestResults == PlanOver(keys[..i], dfAll, compared, ttest)
    {
      var cellLine := keys[i];
      var dfSub := GroupRows(dfAll, cellLine);
      var controlValues := ValuesFor(dfSub, CONTROL_LABEL);
      ghost var before := ttestResults;
      var j := 0;
      while j < |compared|
        invariant 0 <= j <= |compared|
        invariant ttestResults == before + GroupPlan(cellLine, dfAll, compared, ttest)[..j]
      {
        var treatment := compared[j];
        var treatmentValues := ValuesFor(dfSub, treatment);
        var pval := ttest(controlValues, treatmentValues, true).pValue;
        var stars := pval;
        GroupPlanStep(cellLine, dfAll, compared, ttest, j);
        ttestResults := ttestResults + [ComparisonRow(cellLine, treatment, pval, stars)];
        j := j + 1;
      }
      PlanOverStep(keys, dfAll, compared, ttest, i);
      i := i + 1;
    }
    assert keys[..|keys|] == keys;
    return Success(ttestResults);
  }

  /** The comparison rows of two non-empty cohorts: the five compared labels for
      MOLM-13, then the same five for NOMO-1. */
  lemma TwoCohortPlan(nomo: seq<SignalRecord>, molm: seq<SignalRecord>, ttest: TTest<nat>)
    requires nomo != [] && molm != []
    requires forall r :: r in nomo ==> r.cellLine == "NOMO-1"
    requires forall r :: r in molm ==> r.cellLine == "MOLM-13"
    ensures |Plan(Combine(nomo, molm), TREATMENTS, ttest)| == 10
    ensures forall j :: 0 <= j < 5 ==>
      Plan(Combine(nomo, molm), TREATMENTS, ttest)[j] == RowFor("MOLM-13", molm, Compared(TREATMENTS)[j], ttest)
      && Plan(Combine(nomo, molm), TREATMENTS, ttest)[5 + j] == RowFor("NOMO-1", nomo, Compared(TREATMENTS)[j], ttest)
  {
    CombinedCohortGroups(nomo, molm);
    PlanOfTwoGroups(Combine(nomo, molm), ttest, "MOLM-13", "NOMO-1");
  }

  /** A table with exactly two groups gets the five comparisons of the first group, then
      those of the second. */
  lemma PlanOfTwoGroups(table: seq<SignalRecord>, ttest: TTest<nat>, first: string, second: string)
    requires GroupKeys(table) == [first, second]
    ensures |Plan(table, TREATMENTS, ttest)| == 10
    ensures forall j :: 0 <= j < 5 ==>
      Plan(table, TREATMENTS, ttest)[j] == RowFor(first, GroupRows(table, first), Compared(TREATMENTS)[j], ttest)
      && Plan(table, TREATMENTS, ttest)[5 + j] == RowFor(second, GroupRows(table, second), Compared(TREATMENTS)[j], ttest)
  {
    PlanShape(table, TREATMENTS, ttest);
    DeclaredOrderComparisons();
    var plan, compared := Plan(table, TREATMENTS, ttest), Compared(TREATMENTS);
    assert |compared| == 5;
    assert |plan| == 10;
    forall j | 0 <= j < 5
      ensures plan[j] == RowFor(first, GroupRows(table, first), compared[j], ttest)
      ensures plan[5 + j] == RowFor(second, GroupRows(table, second), compared[j], ttest)
    {
      assert RowIndex(0, j, 5, 2) == j;
      assert RowIndex(1, j, 5, 2) == 5 + j;
    }
  }

  /** The script's top level: extract the NOMO-1 and MOLM-13 cohorts with the declared
      vocabulary, concatenate them, and run the comparisons. When both cohorts have
      records there are ten comparison rows: the five compared labels for MOLM-13, then
      the same five for NOMO-1, each group's rows being exactly its cohort's records. */
  method AnalyseCohorts(nomoFiles: seq<ImageFile>, molmFiles: seq<ImageFile>, ttest: TTest<nat>)
    returns (dfAll: seq<SignalRecord>, stats: Result<seq<ComparisonRow>, Error>)
    ensures dfAll == Combine(RecordsOf(SortBy(nomoFiles, NameOf), TREATMENTS, "NOMO-1"),
                             RecordsOf(SortBy(molmFiles, NameOf), TREATMENTS, "MOLM-13"))
    ensures stats.Failure? <==> dfAll == []
    ensures stats.Success? ==> stats.value == Plan(dfAll, TREATMENTS, ttest)
    ensures var nomo := RecordsOf(SortBy(nomoFiles, NameOf), TREATMENTS, "NOMO-1");
            var molm := RecordsOf(SortBy(molmFiles, NameOf), TREATMENTS, "MOLM-13");
            nomo != [] && molm != [] ==>
              stats.Success? && |stats.value| == 10
              && forall j :: 0 <= j < 5 ==>
                   stats.value[j] == RowFor("MOLM-13", molm, Compared(TREATMENTS)[j], ttest)
                   && stats.value[5 + j] == RowFor("NOMO-1", nomo, Compared(TREATMENTS)[j], ttest)
  {
    var dfNomo := ExtractSignals(nomoFiles, TREATMENTS, "NOMO-1");
    var dfMolm := ExtractSignals(molmFiles, TREATMENTS, "MOLM-13");
    dfAll := Combine(dfNomo, dfMolm);
    stats := CompareCohorts(dfAll, TREATMENTS, ttest);
    if dfNomo != [] && dfMolm != [] {
      TwoCohortPlan(dfNomo, dfMolm, ttest);
    }
  }
}
