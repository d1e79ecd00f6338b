/**
 * `SortingAnalyzer`: the check that a result is sorted, the verdict on one timed run, and
 * the two loops that collect verdicts over algorithms and datasets. The clock and the
 * running of the algorithm are outside the model: a run arrives as its outcome.
 */
module SortingAnalysis {
  import opened Wrappers
  import opened SortSpec
  import SortingAlgorithms
  import CountingSorting

  // ---------------------------------------------------------------------------
  // is_sorted
  // ---------------------------------------------------------------------------

  /** Every adjacent pair is in order: what `is_sorted` checks. */
  predicate AdjacentInOrder(a: seq<int>) {
    forall i :: 0 <= i < |a| - 1 ==> a[i] <= a[i + 1]
  }

  lemma {:induction false} AdjacentChain(a: seq<int>, i: int, j: int)
    requires AdjacentInOrder(a) && 0 <= i <= j < |a|
    ensures a[i] <= a[j]
    decreases j - i
  {
    if i < j {
      AdjacentChain(a, i, j - 1);
    }
  }

  /** Checking neighbours is enough: a list whose adjacent pairs are in order is sorted. */
  lemma AdjacentSorted(a: seq<int>)
    ensures AdjacentInOrder(a) <==> Sorted(a)
  {
    if AdjacentInOrder(a) {
      forall i, j | 0 <= i < j < |a| ensures a[i] <= a[j] {
        AdjacentChain(a, i, j);
      }
    }
  }

  /** `is_sorted(arr)`: scans the adjacent pairs and stops at the first one out of order;
      the empty list and a single value are sorted. */
  method IsSorted(arr: seq<int>) returns (b: bool)
    ensures b <==> Sorted(arr)
  {
    var i := 0;
    while i < |arr| - 1
      invariant 0 <= i && (if |arr| == 0 then i == 0 else i <= |arr| - 1)
      invariant forall k :: 0 <= k < i ==> arr[k] <= arr[k + 1]
    {
      if arr[i] > arr[i + 1] {
        return false;
      }
      i := i + 1;
    }
    AdjacentSorted(arr);
    return true;
  }

  // ---------------------------------------------------------------------------
  // measure_sorting_time
  // ---------------------------------------------------------------------------

  /** The exceptions `measure_sorting_time` tells apart. */
  datatype Exception =
    | RecursionLimit            // `RecursionError`
    | OutOfMemory               // `MemoryError`
    | ValueError(text: string)  // `ValueError`, with `str(e)`
    | Other(text: string)       // any other exception, with `str(e)`

  /** What calling the algorithm did: it returned a list after `elapsed` seconds, or it
      raised. */
  datatype Run = Returned(result: seq<int>, elapsed: real) | Raised(exception: Exception)

  /** The triple `(tiempo, éxito, mensaje_error)`. */
  datatype Measurement = Measurement(time: real, success: bool, message: string)

  /** The default `timeout`, in seconds. */
  const DefaultTimeout: real := 300.0

  const TimeExceeded := "Tiempo de ejecución excedido"
  const NotSorted := "El algoritmo no ordenó correctamente"

  function ExceptionMessage(e: Exception): (m: string)
    ensures m != ""
  {
    match e
    case RecursionLimit => "Error: Límite de recursión excedido"
    case OutOfMemory => "Error: Memoria insuficiente"
    case ValueError(t) => "Error: " + t
    case Other(t) => "Error inesperado: " + t
  }

  /** `measure_sorting_time`: a run succeeds exactly when it returned a sorted list within
      the timeout; otherwise the message says why, the timeout being checked before the
      order, and a raised exception reports time 0. */
  method MeasureSortingTime(run: Run, timeout: real) returns (m: Measurement)
    ensures m.success <==> run.Returned? && run.elapsed <= timeout && Sorted(run.result)
    ensures m.success <==> m.message == ""
    ensures run.Returned? ==> m.time == run.elapsed
    ensures run.Returned? && run.elapsed > timeout ==> m.message == TimeExceeded
    ensures run.Returned? && run.elapsed <= timeout && !Sorted(run.result) ==> m.message == NotSorted
    ensures run.Raised? ==> m.time == 0.0 && m.message == ExceptionMessage(run.exception)
  {
    match run {
      case Raised(e) =>
        m := Measurement(0.0, false, ExceptionMessage(e));
      case Returned(result, elapsed) =>
        if elapsed > timeout {
          return Measurement(elapsed, false, TimeExceeded);
        }
        var sorted := IsSorted(result);
        if !sorted {
          return Measurement(elapsed, false, NotSorted);
        }
        m := Measurement(elapsed, true, "");
    }
  }

  /** Calling one of the eight algorithms on `dataset`, the clock reading `elapsed`
      seconds when it returns. */
  method RunAlgorithm(a: SortingAlgorithms.Algorithm, dataset: seq<int>, elapsed: real) returns (run: Run)
    ensures run.Raised? <==>
            a == SortingAlgorithms.Counting && dataset != [] &&
            Max(dataset) - Min(dataset) + 1 > CountingSorting.MaxRange
    ensures run.Raised? ==> run.exception == ValueError(CountingSorting.RangeError)
    ensures run.Returned? ==> run.elapsed == elapsed && SortedPermutation(run.result, dataset)
  {
    var r := SortingAlgorithms.Sort(a, dataset);
    match r {
      case Failure(e) => run := Raised(ValueError(e));
      case Success(s) => run := Returned(s, elapsed);
    }
  }

  /** `measure_sorting_time` of one of the eight algorithms: it fails only by the clock or
      by the range limit of counting sort, and never with the "not sorted" message. */
  method MeasureAlgorithm(a: SortingAlgorithms.Algorithm, dataset: seq<int>, elapsed: real, timeout: real)
    returns (m: Measurement)
    ensures m.success <==>
            elapsed <= timeout &&
            !(a == SortingAlgorithms.Counting && dataset != [] &&
              Max(dataset) - Min(dataset) + 1 > CountingSorting.MaxRange)
    ensures m.message != NotSorted
  {
    var run := RunAlgorithm(a, dataset, elapsed);
    m := MeasureSortingTime(run, timeout);
    if run.Raised? {
      NotSortedDiffers(run.exception);
    }
  }

  lemma NotSortedDiffers(e: Exception)
    ensures NotSorted != ExceptionMessage(e)
  {
    assert NotSorted[1] == 'l' && ExceptionMessage(e)[1] == 'r';
  }

  // ---------------------------------------------------------------------------
  // analyze_multiple_algorithms
  // ---------------------------------------------------------------------------

  /** The entry of `errors`: `dataset_index`, `size` and `error`. */
  datatype Failed = Failed(datasetIndex: nat, size: nat, error: string)

  /** The entry of one algorithm in the results (its `complexity` strings left out). */
  datatype Report = Report(times: seq<real>, sizes: seq<nat>, errors: seq<Failed>, success: bool)

  /** `get_algorithm_info()[name]` exists: its keys are the eight listed names. */
  predicate HasInfo(name: string) {
    name in SortingAlgorithms.GetAvailableAlgorithms()
  }

  /** The index of the first name without complexity information, or the length of
      `names` when every name has it: where `ALGORITHM_INFO[name]` raises `KeyError`. */
  function FirstUnknown(names: seq<string>): (k: nat)
    ensures k <= |names|
  {
    if names == [] || !HasInfo(names[0]) then 0 else 1 + FirstUnknown(names[1..])
  }

  /** Every name before `FirstUnknown(names)` has information, and the one there has none. */
  lemma {:induction false} FirstUnknownIs(names: seq<string>)
    ensures forall l :: 0 <= l < FirstUnknown(names) ==> HasInfo(names[l])
    ensures FirstUnknown(names) < |names| ==> !HasInfo(names[FirstUnknown(names)])
  {
    if names != [] && HasInfo(names[0]) {
      FirstUnknownIs(names[1..]);
      assert forall l :: 1 <= l < |names| ==> names[l] == names[1..][l - 1];
    }
  }

  /** One step of a loop over `names` that stops at the first unknown name. */
  lemma KnownStep(names: seq<string>, k: nat)
    requires k <= FirstUnknown(names) && k < |names|
    ensures HasInfo(names[k]) ==> k + 1 <= FirstUnknown(names)
    ensures !HasInfo(names[k]) ==> FirstUnknown(names) == k
  {
    FirstUnknownIs(names);
  }

  /** `report` is what the inner loop collects for algorithm `a`, whose measurement on
      dataset `d` is `measure(a, d)`: the times and sizes of the leading run of successful
      datasets, then the first failure if there is one. */
  ghost predicate IsReport(report: Report, a: nat, datasets: seq<seq<int>>, measure: (nat, nat) -> Measurement) {
    var f := |report.sizes|;
    && f <= |datasets| && |report.times| == f
    && (forall k :: 0 <= k < f ==>
          measure(a, k).success && report.sizes[k] == |datasets[k]| && report.times[k] == measure(a, k).time)
    && (if f < |datasets|
        then !measure(a, f).success && report.errors == [Failed(f, |datasets[f]|, measure(a, f).message)]
        else report.errors == [])
    && report.success == (report.errors == [])
  }

  /** A report keeps its times and sizes in step and holds one error at most, and the
      algorithm counts as successful exactly when it succeeded on every dataset. */
  lemma ReportShape(report: Report, a: nat, datasets: seq<seq<int>>, measure: (nat, nat) -> Measurement)
    requires IsReport(report, a, datasets, measure)
    ensures |report.times| == |report.sizes| && |report.errors| <= 1
    ensures report.success <==> report.errors == []
    ensures report.success <==> forall d :: 0 <= d < |datasets| ==> measure(a, d).success
    ensures |report.sizes| + |report.errors| <= |datasets|
    ensures report.success ==> |report.sizes| == |datasets|
  {
    if !report.success {
      assert !measure(a, |report.sizes|).success;
    }
  }

  /** The inner loop for algorithm `a`: measures the datasets in order and stops at the
      first failure; `attempts` is how far it added to `current_test`. */
  method AnalyzeAlgorithm(a: nat, datasets: seq<seq<int>>, measure: (nat, nat) -> Measurement)
    returns (report: Report, attempts: nat)
    ensures IsReport(report, a, datasets, measure)
    ensures attempts == |report.sizes| + |report.errors|
  {
    var times: seq<real> := [];
    var sizes: seq<nat> := [];
    var errors: seq<Failed> := [];
    attempts := 0;
    for i := 0 to |datasets|
      invariant |sizes| == i && |times| == i && errors == [] && attempts == i
      invariant forall k :: 0 <= k < i ==>
                  measure(a, k).success && sizes[k] == |datasets[k]| && times[k] == measure(a, k).time
    {
      attempts := attempts + 1;
      var m := measure(a, i);
      if m.success {
        times := times + [m.time];
        sizes := sizes + [|datasets[i]|];
      } else {
        errors := errors + [Failed(i, |datasets[i]|, m.message)];
        break;
      }
    }
    report := Report(times, sizes, errors, |errors| == 0);
  }

  /** Index `k` of `names` is the last occurrence of its name before index `n`: a later
      duplicate overwrites its entry in the results. */
  predicate LastBefore(names: seq<string>, k: int, n: int)
    requires 0 <= k < |names| && n <= |names|
  {
    forall l :: k < l < n ==> names[l] != names[k]
  }

  /** `results` holds, after the first `k` names, one report per name seen, from the last
      time the name was seen. */
  ghost predicate ReportsUpTo(results: map<string, Report>, names: seq<string>, k: int,
                              datasets: seq<seq<int>>, measure: (nat, nat) -> Measurement) {
    && 0 <= k <= |names|
    && (forall n :: n in results <==> n in names[..k])
    && (forall j :: 0 <= j < k && LastBefore(names, j, k) ==>
          names[j] in results && IsReport(results[names[j]], j, datasets, measure))
  }

  lemma ReportsStep(results: map<string, Report>, names: seq<string>, k: int, report: Report,
                    datasets: seq<seq<int>>, measure: (nat, nat) -> Measurement)
    requires ReportsUpTo(results, names, k, datasets, measure) && k < |names|
    requires IsReport(report, k, datasets, measure)
    ensures ReportsUpTo(results[names[k] := report], names, k + 1, datasets, measure)
  {
    assert names[..k + 1] == names[..k] + [names[k]];
    var results' := results[names[k] := report];
    forall j | 0 <= j < k + 1 && LastBefore(names, j, k + 1)
      ensures names[j] in results' && IsReport(results'[names[j]], j, datasets, measure)
    {
      if j < k {
        assert names[j] != names[k];
        assert LastBefore(names, j, k);
      }
    }
  }

  lemma FewerRows(k: nat, m: nat, n: nat)
    requires k <= m
    ensures k * n <= m * n
  {
  }

  /** The results of `analyze_multiple_algorithms`: a key per listed name, holding the
      report of the last algorithm listed under it. */
  ghost predicate IsResults(results: map<string, Report>, names: seq<string>,
                            datasets: seq<seq<int>>, measure: (nat, nat) -> Measurement) {
    && (forall n :: n in results <==> n in names)
    && (forall k :: 0 <= k < |names| && LastBefore(names, k, |names|) ==>
          IsReport(results[names[k]], k, datasets, measure))
  }

  lemma ReportsDone(results: map<string, Report>, names: seq<string>,
                    datasets: seq<seq<int>>, measure: (nat, nat) -> Measurement)
    requires ReportsUpTo(results, names, |names|, datasets, measure)
    ensures IsResults(results, names, datasets, measure)
  {
    assert names[..|names|] == names;
  }

  /** Every measurement of the first `k` algorithms succeeds. */
  ghost predicate AllSucceed(measure: (nat, nat) -> Measurement, k: nat, n: nat) {
    forall a, d :: 0 <= a < k && 0 <= d < n ==> measure(a, d).success
  }

  /** Adding the attempts of algorithm `k` to `current_test` keeps it within
      `(k + 1) * n`, and exactly there when every measurement so far succeeded. */
  lemma CountStep(measure: (nat, nat) -> Measurement, k: nat, n: nat, t: nat, attempts: nat)
    requires t <= k * n && (AllSucceed(measure, k, n) ==> t == k * n)
    requires attempts <= n && ((forall d :: 0 <= d < n ==> measure(k, d).success) ==> attempts == n)
    ensures t + attempts <= (k + 1) * n
    ensures AllSucceed(measure, k + 1, n) ==> t + attempts == (k + 1) * n
  {
    assert (k + 1) * n == k * n + n;
    if AllSucceed(measure, k + 1, n) {
      assert AllSucceed(measure, k, n);
      assert forall d :: 0 <= d < n ==> measure(k, d).success;
    }
  }

  /** `analyze_multiple_algorithms`: one report per listed name, from the last time the
      name is listed, with `current_test` counting the measured datasets up to
      `len(algorithm_names) * len(datasets)`. A name without complexity information
      raises `KeyError` and no results are returned. */
  method AnalyzeMultipleAlgorithms(names: seq<string>, datasets: seq<seq<int>>, measure: (nat, nat) -> Measurement)
    returns (r: Result<map<string, Report>, string>, currentTest: nat)
    ensures r.Failure? <==> FirstUnknown(names) < |names|
    ensures r.Failure? ==> r.error == names[FirstUnknown(names)]
    ensures r.Success? ==> IsResults(r.value, names, datasets, measure)
    ensures currentTest <= |names| * |datasets|
    ensures r.Success? && AllSucceed(measure, |names|, |datasets|) ==> currentTest == |names| * |datasets|
  {
    var results: map<string, Report> := map[];
    currentTest := 0;
    for k := 0 to |names|
      invariant k <= FirstUnknown(names)
      invariant ReportsUpTo(results, names, k, datasets, measure)
      invariant currentTest <= k * |datasets|
      invariant AllSucceed(measure, k, |datasets|) ==> currentTest == k * |datasets|
    {
      KnownStep(names, k);
      if !HasInfo(names[k]) {
        FewerRows(k, |names|, |datasets|);
        return Failure(names[k]), currentTest;
      }
      var report, attempts := AnalyzeAlgorithm(k, datasets, measure);
      ReportShape(report, k, datasets, measure);
      CountStep(measure, k, |datasets|, currentTest, attempts);
      ReportsStep(results, names, k, report, datasets, measure);
      results := results[names[k] := report];
      currentTest := currentTest + attempts;
    }
    ReportsDone(results, names, datasets, measure);
    r := Success(results);
  }

  // ---------------------------------------------------------------------------
  // analyze_single_dataset
  // ---------------------------------------------------------------------------

  /** The entry of one algorithm in the results for a single dataset (its `complexity`
      strings left out). */
  datatype SingleReport = SingleReport(time: real, size: nat, error: Option<string>, success: bool)

  /** The entry of the algorithm at index `j` for its measurement `m`. */
  ghost predicate IsSingleReport(e: SingleReport, m: Measurement, size: nat) {
    && e.success == m.success && e.time == m.time && e.size == size
    && (if m.success then e.error == None else e.error == Some(m.message))
  }

  /** `results` holds, after the first `k` names, one entry per name seen, from the last
      time the name was seen. */
  ghost predicate SinglesUpTo(results: map<string, SingleReport>, names: seq<string>, k: int,
                              size: nat, measure: nat -> Measurement) {
    && 0 <= k <= |names|
    && (forall n :: n in results <==> n in names[..k])
    && (forall j :: 0 <= j < k && LastBefore(names, j, k) ==>
          names[j] in results && IsSingleReport(results[names[j]], measure(j), size))
  }

  lemma SinglesStep(results: map<string, SingleReport>, names: seq<string>, k: int, e: SingleReport,
                    size: nat, measure: nat -> Measurement)
    requires SinglesUpTo(results, names, k, size, measure) && k < |names|
    requires IsSingleReport(e, measure(k), size)
    ensures SinglesUpTo(results[names[k] := e], names, k + 1, size, measure)
  {
    assert names[..k + 1] == names[..k] + [names[k]];
    var results' := results[names[k] := e];
    forall j | 0 <= j < k + 1 && LastBefore(names, j, k + 1)
      ensures names[j] in results' && IsSingleReport(results'[names[j]], measure(j), size)
    {
      if j < k {
        assert names[j] != names[k];
        assert LastBefore(names, j, k);
      }
    }
  }

  /** The results of `analyze_single_dataset`: a key per listed name, each entry with the
      size of the dataset and an error message exactly when it failed, holding the
      measurement of the last algorithm listed under that name. */
  ghost predicate IsSingleResults(results: map<string, SingleReport>, names: seq<string>,
                                  size: nat, measure: nat -> Measurement) {
    && (forall n :: n in results <==> n in names)
    && (forall n :: n in results ==>
          results[n].size == size && (results[n].error.None? <==> results[n].success))
    && (forall k :: 0 <= k < |names| && LastBefore(names, k, |names|) ==>
          IsSingleReport(results[names[k]], measure(k), size))
  }

  lemma SinglesDone(results: map<string, SingleReport>, names: seq<string>,
                    size: nat, measure: nat -> Measurement)
    requires SinglesUpTo(results, names, |names|, size, measure)
    requires forall n :: n in results ==>
               results[n].size == size && (results[n].error.None? <==> results[n].success)
    ensures IsSingleResults(results, names, size, measure)
  {
    assert names[..|names|] == names;
  }

  /** `analyze_single_dataset`: one entry per listed name, from the last time the name is
      listed, holding the size of the dataset and the measurement, with an error message
      exactly when the measurement failed. A name without complexity information raises
      `KeyError`. */
  method AnalyzeSingleDataset(names: seq<string>, dataset: seq<int>, measure: nat -> Measurement)
    returns (r: Result<map<string, SingleReport>, string>)
    ensures r.Failure? <==> FirstUnknown(names) < |names|
    ensures r.Failure? ==> r.error == names[FirstUnknown(names)]
    ensures r.Success? ==> IsSingleResults(r.value, names, |dataset|, measure)
  {
    var results: map<string, SingleReport> := map[];
    for k := 0 to |names|
      invariant k <= FirstUnknown(names)
      invariant SinglesUpTo(results, names, k, |dataset|, measure)
      invariant forall n :: n in results ==>
                  results[n].size == |dataset| && (results[n].error.None? <==> results[n].success)
    {
      KnownStep(names, k);
      if !HasInfo(names[k]) {
        return Failure(names[k]);
      }
      var m := measure(k);
      var entry := SingleReport(m.time, |dataset|, if !m.success then Some(m.message) else None, m.success);
      SinglesStep(results, names, k, entry, |dataset|, measure);
      results := results[names[k] := entry];
    }
    SinglesDone(results, names, |dataset|, measure);
    r := Success(results);
  }
}
