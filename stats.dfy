/** The statistics both scripts hand to SciPy, kept uninterpreted. */
module Stats {

  /** A double-precision value as far as this model needs one: NaN, or some number. */
  datatype Float = NaN | Number(value: real)

  /** What `scipy.stats.ttest_ind` returns: the t statistic and the two-sided p-value. */
  datatype TestResult = TestResult(statistic: Float, pValue: Float)

  /** The two-sample t-test `ttest_ind(a, b, equal_var=...)`, left uninterpreted:
      every operation that runs a test receives it as a parameter. */
  type TTest<!V> = (seq<V>, seq<V>, bool) -> TestResult
}
