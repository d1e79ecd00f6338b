/**
 * `ComplexityDetector.analyze`: parse the snippet, detect direct recursion,
 * measure loop nesting, detect keyword patterns, and classify the snippet with
 * either the recursive table or the iterative table.
 *
 * Python's parser is not modelled: `Analyze` receives the outcome of
 * `ast.parse(code)` as `parsed`, `None` standing for a `SyntaxError`.
 * Confidences are whole percentages (0.85 is 85).
 */
module ComplexityDetection {
  import opened Wrappers
  import opened SyntaxTree
  import opened Text
  import RecursionDetection
  import LoopAnalysis
  import PatternDetection
  import RecursiveAnalysis

  /** The dictionary `analyze` returns; `isRecursive` is absent from the error result. */
  datatype Classification = Classification(
    complexity: string,
    notation: string,
    isRecursive: Option<bool>,
    confidence: nat)

  const ParseError := Classification("Error", "Sintaxis inválida", None, 0)

  /** The complexities the recursive table can produce. */
  predicate IsRecursiveComplexity(c: string) {
    c == "O(n)" || c == "O(log n)" || c == "O(n log n)" || c == "O(n²)"
  }

  /** The recurrence `T(n) = <calls>T(<arg>) + <work>` as the recursive table writes it. */
  function Recurrence(calls: string, arg: string, work: string): (s: string)
    ensures |s| > 7 && s[..7] == "T(n) = "
  {
    "T(n) = " + calls + "T(" + arg + ") + " + work
  }

  /** `analyze_recursive_complexity` once the analyzer has run: `calls` is
      `recursive_calls_per_invocation`, `linearWork` is `has_linear_work` and
      `loopInRecursion` is `has_loop_in_recursion`. */
  function RecursiveComplexity(patterns: PatternDetection.Patterns, calls: nat,
                               linearWork: bool, loopInRecursion: bool): (c: Classification)
    ensures c.isRecursive == Some(true) && c.confidence == 85
    ensures IsRecursiveComplexity(c.complexity)
    ensures |c.notation| > 7 && c.notation[..7] == "T(n) = "
  {
    if patterns.divideConquer || patterns.binarySearch then
      if calls == 1 then
        if linearWork then Classification("O(n)", Recurrence("", "n/2", "O(n)"), Some(true), 85)
        else Classification("O(log n)", Recurrence("", "n/2", "O(1)"), Some(true), 85)
      else if calls == 2 then
        if linearWork then Classification("O(n log n)", Recurrence("2", "n/2", "O(n)"), Some(true), 85)
        else Classification("O(n)", Recurrence("2", "n/2", "O(1)"), Some(true), 85)
      else
        Classification("O(n log n)", Recurrence(NatToString(calls), "n/2", "O(n)"), Some(true), 85)
    else if loopInRecursion then
      Classification("O(n²)", Recurrence("", "n-1", "O(n)"), Some(true), 85)
    else
      Classification("O(n)", Recurrence("", "n-1", "O(1)"), Some(true), 85)
  }

  /** The notation of the recursive table mentions `n/2` exactly when a halving pattern
      was detected. */
  lemma RecursiveNotation(patterns: PatternDetection.Patterns, calls: nat, linearWork: bool, loopInRecursion: bool)
    ensures (patterns.divideConquer || patterns.binarySearch) <==>
            Contains(RecursiveComplexity(patterns, calls, linearWork, loopInRecursion).notation, "n/2")
  {
    if patterns.divideConquer || patterns.binarySearch {
      var count := if calls == 1 then "" else if calls == 2 then "2" else NatToString(calls);
      var work := if (calls == 1 || calls == 2) && !linearWork then "O(1)" else "O(n)";
      assert RecursiveComplexity(patterns, calls, linearWork, loopInRecursion).notation ==
             Recurrence(count, "n/2", work);
      HalvingRecurrence(count, work);
    } else {
      var work := if loopInRecursion then "O(n)" else "O(1)";
      assert RecursiveComplexity(patterns, calls, linearWork, loopInRecursion).notation ==
             Recurrence("", "n-1", work);
      SlashFreeRecurrence("", "n-1", work);
    }
  }

  /** The label of the recursive table: logarithmic only for one halving call without
      linear work, quadratic only for a loop without halving, `O(n log n)` for a halving
      recursion with more than two calls or with two calls and linear work, linear
      otherwise. */
  lemma RecursiveComplexityCases(patterns: PatternDetection.Patterns, calls: nat,
                                 linearWork: bool, loopInRecursion: bool)
    ensures var c := RecursiveComplexity(patterns, calls, linearWork, loopInRecursion);
            var halving := patterns.divideConquer || patterns.binarySearch;
            && (c.complexity == "O(log n)" <==> halving && calls == 1 && !linearWork)
            && (c.complexity == "O(n²)" <==> !halving && loopInRecursion)
            && (c.complexity == "O(n log n)" <==>
                  halving && calls != 1 && (calls != 2 || linearWork))
            && (c.complexity == "O(n)" <==>
                  (halving && (calls == 1 || calls == 2) && linearWork != (calls == 2)) ||
                  (!halving && !loopInRecursion))
  {
  }

  /** A recurrence on `n/2` mentions `n/2`. */
  lemma HalvingRecurrence(calls: string, work: string)
    ensures Contains(Recurrence(calls, "n/2", work), "n/2")
  {
    HalfAt(Recurrence(calls, "n/2", work), 9 + |calls|);
  }

  /** A recurrence whose parts have no slash does not mention `n/2`. */
  lemma SlashFreeRecurrence(calls: string, arg: string, work: string)
    requires '/' !in calls && '/' !in arg && '/' !in work
    ensures !Contains(Recurrence(calls, arg, work), "n/2")
  {
    var s := Recurrence(calls, arg, work);
    assert s == "T(n) = " + calls + "T(" + arg + ") + " + work;
    assert '/' !in s;
    WithoutSlash(s);
  }

  /** A string with `n/2` at index `k` contains `n/2`. */
  lemma HalfAt(s: string, k: nat)
    requires k + 3 <= |s| && s[k] == 'n' && s[k + 1] == '/' && s[k + 2] == '2'
    ensures Contains(s, "n/2")
  {
    assert s[k..][..3] == "n/2";
  }

  /** A string without a slash does not contain `n/2`. */
  lemma WithoutSlash(s: string)
    requires forall k :: 0 <= k < |s| ==> s[k] != '/'
    ensures !Contains(s, "n/2")
  {
    forall i | 0 <= i <= |s| ensures !("n/2" <= s[i..]) {
      if i + 1 < |s| {
        assert s[i..][1] == s[i + 1];
      }
    }
  }

  /** `analyze_iterative_complexity`: a table on the deepest loop nesting alone. */
  function IterativeComplexity(maxDepth: nat, patterns: PatternDetection.Patterns): (c: Classification)
    ensures c.isRecursive == Some(false) && c.notation == c.complexity
    ensures maxDepth >= 4 ==> c.complexity == "O(n^" + NatToString(maxDepth) + ")" && c.confidence == 75
    ensures 75 <= c.confidence <= 95
  {
    if maxDepth == 0 then Classification("O(1)", "O(1)", Some(false), 95)
    else if maxDepth == 1 then
      var complexity := if patterns.binarySearch || patterns.logarithmic then "O(log n)" else "O(n)";
      Classification(complexity, complexity, Some(false), 90)
    else if maxDepth == 2 then Classification("O(n²)", "O(n²)", Some(false), 85)
    else if maxDepth == 3 then Classification("O(n³)", "O(n³)", Some(false), 80)
    else
      var notation := "O(n^" + NatToString(maxDepth) + ")";
      Classification(notation, notation, Some(false), 75)
  }

  /** What `analyze` returns for the parse outcome `parsed` of `code`. */
  function Classify(parsed: Option<Node>, code: string): (c: Classification)
    ensures parsed.None? ==> c == ParseError
    ensures c.isRecursive.None? <==> parsed.None?
    ensures c.confidence == 0 <==> parsed.None?
    ensures parsed.Some? ==>
              c.isRecursive == Some(RecursionDetection.RecursiveNames(parsed.value, None) != {})
  {
    match parsed
    case None => ParseError
    case Some(tree) =>
      var fs := RecursionDetection.RecursiveNames(tree, None);
      var hasRecursion := fs != {};
      var patterns := PatternDetection.Detected(tree, code, hasRecursion);
      if hasRecursion then
        var loops := RecursiveAnalysis.LoopInRecursive(tree, fs);
        RecursiveComplexity(patterns, RecursiveAnalysis.MaxSelfCalls(tree, fs), loops, loops)
      else
        IterativeComplexity(LoopAnalysis.LoopDepth(tree), patterns)
  }

  class ComplexityDetector {
    const code: string
    var tree: Option<Node>
    var hasRecursion: bool
    var recursiveFunctions: set<string>
    var maxLoopDepth: nat
    var hasDivideConquer: bool

    constructor (code: string)
      ensures this.code == code && tree == None
      ensures !hasRecursion && recursiveFunctions == {}
      ensures maxLoopDepth == 0 && !hasDivideConquer
    {
      this.code := code;
      tree := None;
      hasRecursion := false;
      recursiveFunctions := {};
      maxLoopDepth := 0;
      hasDivideConquer := false;
    }

    /** `analyze`, given the outcome of parsing `code`. On a parse error nothing is
        recorded; otherwise the tree and the recursion findings are. */
    method Analyze(parsed: Option<Node>) returns (result: Classification)
      modifies this
      ensures result == Classify(parsed, code)
      ensures parsed.None? ==> tree == old(tree) && hasRecursion == old(hasRecursion) &&
                               recursiveFunctions == old(recursiveFunctions)
      ensures parsed.Some? ==> tree == parsed &&
                               recursiveFunctions == RecursionDetection.RecursiveNames(parsed.value, None) &&
                               hasRecursion == (recursiveFunctions != {})
      ensures maxLoopDepth == old(maxLoopDepth) && hasDivideConquer == old(hasDivideConquer)
    {
      if parsed.None? {
        return ParseError;
      }
      tree := parsed;
      var _ := DetectRecursion();
      var loopAnalysis := LoopAnalysis.AnalyzeLoops(tree.value);
      var patterns := PatternDetection.DetectPatterns(tree.value, code, hasRecursion);
      if hasRecursion {
        result := AnalyzeRecursiveComplexity(patterns);
      } else {
        result := IterativeComplexity(loopAnalysis.maxDepth, patterns);
      }
    }

    /** `detect_recursion`: records the recursive functions of the parsed tree. */
    method DetectRecursion() returns (found: bool)
      requires tree.Some?
      modifies this
      ensures tree == old(tree) && maxLoopDepth == old(maxLoopDepth)
      ensures hasDivideConquer == old(hasDivideConquer)
      ensures recursiveFunctions == RecursionDetection.RecursiveNames(tree.value, None)
      ensures found == hasRecursion == (recursiveFunctions != {})
    {
      var names := RecursionDetection.DetectRecursion(tree.value);
      hasRecursion := |names| > 0;
      recursiveFunctions := names;
      found := hasRecursion;
    }

    /** `analyze_recursive_complexity`: runs `RecursiveAnalyzer` over the tree with the
        recorded recursive functions, then consults the recursive table. */
    method AnalyzeRecursiveComplexity(patterns: PatternDetection.Patterns) returns (result: Classification)
      requires tree.Some?
      ensures var loops := RecursiveAnalysis.LoopInRecursive(tree.value, recursiveFunctions);
              result == RecursiveComplexity(patterns,
                          RecursiveAnalysis.MaxSelfCalls(tree.value, recursiveFunctions), loops, loops)
    {
      var analyzer := new RecursiveAnalysis.RecursiveAnalyzer(recursiveFunctions);
      analyzer.Visit(tree.value);
      result := RecursiveComplexity(patterns, analyzer.recursiveCallsPerInvocation,
                                    analyzer.hasLinearWork, analyzer.hasLoopInRecursion);
    }
  }

  // ---------------------------------------------------------------------------
  // Properties of the classification
  // ---------------------------------------------------------------------------

  /** A snippet without recursion and without any loop is constant time, with the highest
      confidence. */
  lemma StraightLineIsConstant(tree: Node, code: string)
    requires RecursionDetection.RecursiveNames(tree, None) == {}
    requires forall p :: IsPath(tree, p) ==> LoopsOnPath(tree, p) == 0
    ensures Classify(Some(tree), code) == Classification("O(1)", "O(1)", Some(false), 95)
  {
    LoopAnalysis.DeepestPathExists(tree);
  }

  /** Without recursion the classification is the iterative table applied to the largest
      number of loops on any root-to-node path. */
  lemma IterativeUsesDeepestNesting(tree: Node, code: string, p: seq<nat>)
    requires RecursionDetection.RecursiveNames(tree, None) == {}
    requires IsPath(tree, p)
    requires forall q :: IsPath(tree, q) ==> LoopsOnPath(tree, q) <= LoopsOnPath(tree, p)
    ensures Classify(Some(tree), code) ==
            IterativeComplexity(LoopsOnPath(tree, p), PatternDetection.TextPatterns(code))
  {
    LoopAnalysis.LoopsOnPathAtMostDepth(tree, p);
    LoopAnalysis.DeepestPathExists(tree);
    var q :| IsPath(tree, q) && LoopsOnPath(tree, q) == LoopAnalysis.LoopDepth(tree);
    assert LoopAnalysis.LoopDepth(tree) == LoopsOnPath(tree, p);
    assert PatternDetection.Detected(tree, code, false) == PatternDetection.TextPatterns(code);
  }

  /** With more than two self-calls in a halving recursion the recurrence names the
      number of calls, and that number is at least three. */
  lemma ManyCallsRecurrence(tree: Node, code: string)
    requires RecursionDetection.RecursiveNames(tree, None) != {}
    requires var fs := RecursionDetection.RecursiveNames(tree, None);
             var k := RecursiveAnalysis.MaxSelfCalls(tree, fs);
             var patterns := PatternDetection.Detected(tree, code, true);
             (patterns.divideConquer || patterns.binarySearch) && k != 1 && k != 2
    ensures var fs := RecursionDetection.RecursiveNames(tree, None);
            var k := RecursiveAnalysis.MaxSelfCalls(tree, fs);
            k >= 3 &&
            Classify(Some(tree), code) ==
            Classification("O(n log n)", Recurrence(NatToString(k), "n/2", "O(n)"), Some(true), 85)
  {
    RecursiveAnalysis.RecursiveHasSelfCall(tree);
  }

  /** Deeper nesting never raises the confidence of the iterative table. */
  lemma {:induction false} IterativeConfidenceMonotone(d1: nat, d2: nat,
                                                       p1: PatternDetection.Patterns,
                                                       p2: PatternDetection.Patterns)
    requires d1 <= d2
    ensures IterativeComplexity(d2, p2).confidence <= IterativeComplexity(d1, p1).confidence
  {
  }

  /** The character at index 3 of every notation of the iterative table below depth 4. */
  lemma ShallowNotationShape(d: nat, p: PatternDetection.Patterns)
    requires d < 4
    ensures var s := IterativeComplexity(d, p).notation; |s| >= 4 && s[3] != '^'
  {
  }

  /** The iterative notation determines the nesting depth: different depths never share
      a notation. */
  lemma IterativeNotationDeterminesDepth(d1: nat, d2: nat,
                                         p1: PatternDetection.Patterns,
                                         p2: PatternDetection.Patterns)
    requires IterativeComplexity(d1, p1).notation == IterativeComplexity(d2, p2).notation
    ensures d1 == d2
  {
    var s := IterativeComplexity(d1, p1).notation;
    if d1 >= 4 && d2 >= 4 {
      var r1, r2 := NatToString(d1), NatToString(d2);
      assert s == "O(n^" + r1 + ")" == "O(n^" + r2 + ")";
      assert r1 == s[4..|s| - 1] == r2;
    } else if d1 >= 4 {
      ShallowNotationShape(d2, p2);
    } else if d2 >= 4 {
      ShallowNotationShape(d1, p1);
    }
  }
}
