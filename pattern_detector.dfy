/**
 * Algorithmic-pattern detection (`ComplexityDetector.detect_patterns`): five
 * keyword tests on the source text, and, when the snippet is recursive, the
 * `DivisionDetector` visitor that replaces the divide-and-conquer keyword test
 * by "some `/` or `//` occurs in the tree".
 */
module PatternDetection {
  import opened Wrappers
  import opened SyntaxTree
  import opened Text

  /** The dictionary `detect_patterns` returns. */
  datatype Patterns = Patterns(
    sorting: bool,
    binarySearch: bool,
    divideConquer: bool,
    dynamicProgramming: bool,
    logarithmic: bool)

  /** Python's `any(w in s for w in ws)`. */
  function ContainsAny(s: string, ws: seq<string>): (b: bool)
    ensures b <==> exists k :: 0 <= k < |ws| && Contains(s, ws[k])
  {
    if ws == [] then false
    else if Contains(s, ws[0]) then true
    else
      var b := ContainsAny(s, ws[1..]);
      assert forall k :: 1 <= k < |ws| ==> ws[k] == ws[1..][k - 1];
      b
  }

  const SortingWords: seq<string> := ["sort", "bubble", "quick", "merge", "heap"]
  const DivideWords: seq<string> := ["//2", "/ 2", "mid", "split"]

  /** The keyword tests. `sorting`, `dynamicProgramming` and the word parts of
      `binarySearch` and `logarithmic` look at the lower-cased text; `divideConquer`
      and the `//` tests look at the text as written. */
  function TextPatterns(code: string): Patterns {
    var low := Lower(code);
    Patterns(
      ContainsAny(low, SortingWords),
      Contains(low, "binary") || (Contains(low, "while") && Contains(code, "//")),
      ContainsAny(code, DivideWords),
      Contains(low, "dp") || Contains(low, "memo"),
      Contains(code, "//") || Contains(low, "log"))
  }

  // ---------------------------------------------------------------------------
  // Division operators in the tree
  // ---------------------------------------------------------------------------

  /** `n` is a `BinOp` whose operator is `/` or `//`. */
  predicate IsDivision(n: Node) {
    n.BinOp? && (n.op == FloorDiv || n.op == Div)
  }

  /** Whether visiting `n` sets `has_division`. */
  function HasDivision(n: Node): bool
    decreases n, |Children(n)| + 1
  {
    IsDivision(n) || HasDivisionKids(n, |Children(n)|)
  }

  function HasDivisionKids(n: Node, i: nat): bool
    requires i <= |Children(n)|
    decreases n, i
  {
    i > 0 && (HasDivisionKids(n, i - 1) || HasDivision(Children(n)[i - 1]))
  }

  class DivisionDetector {
    var hasDivision: bool

    constructor ()
      ensures !hasDivision
    {
      hasDivision := false;
    }

    /** `visit`: `visit_BinOp` for binary operations, `generic_visit` otherwise. */
    method Visit(n: Node)
      modifies this
      decreases n, 1
      ensures hasDivision == (old(hasDivision) || HasDivision(n))
    {
      if n.BinOp? {
        if n.op == FloorDiv || n.op == Div {
          hasDivision := true;
        }
      }
      GenericVisit(n);
    }

    method GenericVisit(n: Node)
      modifies this
      decreases n, 0
      ensures hasDivision == (old(hasDivision) || HasDivisionKids(n, |Children(n)|))
    {
      var children := Children(n);
      for i := 0 to |children|
        invariant hasDivision == (old(hasDivision) || HasDivisionKids(n, i))
      {
        Visit(children[i]);
      }
    }
  }

  /** `detect_patterns`: the keyword tests, with `divideConquer` replaced by the
      division test on the tree when the snippet is recursive. Only `divideConquer`
      depends on recursion; the other four flags are keyword tests in every case. */
  function Detected(tree: Node, code: string, hasRecursion: bool): (p: Patterns)
    ensures p.sorting <==> exists k :: 0 <= k < |SortingWords| && Contains(Lower(code), SortingWords[k])
    ensures p.binarySearch <==>
              Contains(Lower(code), "binary") || (Contains(Lower(code), "while") && Contains(code, "//"))
    ensures p.dynamicProgramming <==> Contains(Lower(code), "dp") || Contains(Lower(code), "memo")
    ensures p.logarithmic <==> Contains(code, "//") || Contains(Lower(code), "log")
    ensures hasRecursion ==> (p.divideConquer <==> exists q :: DivisionAt(tree, q))
    ensures !hasRecursion ==>
              (p.divideConquer <==> exists k :: 0 <= k < |DivideWords| && Contains(code, DivideWords[k]))
  {
    var patterns := TextPatterns(code);
    HasDivisionIffSomeDivision(tree);
    if hasRecursion then patterns.(divideConquer := HasDivision(tree)) else patterns
  }

  method DetectPatterns(tree: Node, code: string, hasRecursion: bool) returns (patterns: Patterns)
    ensures patterns == Detected(tree, code, hasRecursion)
  {
    patterns := TextPatterns(code);
    if hasRecursion {
      var detector := new DivisionDetector();
      detector.Visit(tree);
      patterns := patterns.(divideConquer := detector.hasDivision);
    }
  }

  // ---------------------------------------------------------------------------
  // The division test, stated over paths
  // ---------------------------------------------------------------------------

  predicate DivisionAt(n: Node, p: seq<nat>) {
    IsPath(n, p) && IsDivision(NodeAt(n, p).value)
  }

  predicate ChildHasDivision(n: Node, j: nat)
    requires j < |Children(n)|
  {
    HasDivision(Children(n)[j])
  }

  lemma {:induction false} DivisionKidsWitness(n: Node, i: nat)
    requires i <= |Children(n)|
    ensures HasDivisionKids(n, i) <==> exists j :: 0 <= j < i && ChildHasDivision(n, j)
  {
    if i > 0 {
      DivisionKidsWitness(n, i - 1);
      if ChildHasDivision(n, i - 1) {
        assert 0 <= i - 1 < i;
      }
    }
  }

  lemma {:induction false} DivisionFoundHasPath(n: Node)
    requires HasDivision(n)
    ensures exists p :: DivisionAt(n, p)
    decreases n
  {
    if IsDivision(n) {
      assert DivisionAt(n, []);
    } else {
      var cs := Children(n);
      DivisionKidsWitness(n, |cs|);
      var j :| 0 <= j < |cs| && ChildHasDivision(n, j);
      DivisionFoundHasPath(cs[j]);
      var q :| DivisionAt(cs[j], q);
      NodeAtCons(n, j, q);
      assert DivisionAt(n, [j] + q);
    }
  }

  lemma {:induction false} DivisionAtIsFound(n: Node, p: seq<nat>)
    requires DivisionAt(n, p)
    ensures HasDivision(n)
    decreases |p|
  {
    if p != [] {
      var cs := Children(n);
      DivisionAtIsFound(cs[p[0]], p[1..]);
      assert ChildHasDivision(n, p[0]);
      DivisionKidsWitness(n, |cs|);
    }
  }

  /** The visitor finds a division iff some node of the tree is a `/` or `//`. */
  lemma HasDivisionIffSomeDivision(n: Node)
    ensures HasDivision(n) <==> exists p :: DivisionAt(n, p)
  {
    if HasDivision(n) {
      DivisionFoundHasPath(n);
    }
    forall p | DivisionAt(n, p) ensures HasDivision(n) {
      DivisionAtIsFound(n, p);
    }
  }

  // ---------------------------------------------------------------------------
  // Properties of the keyword tests
  // ---------------------------------------------------------------------------

  lemma LowerIdempotent(s: string)
    ensures Lower(Lower(s)) == Lower(s)
  {
  }

  /** A character that is not an ASCII letter: lower-casing neither produces nor changes it. */
  predicate CaseFree(c: char) {
    !('A' <= c <= 'Z') && !('a' <= c <= 'z')
  }

  lemma {:induction false} PrefixLower(s: string, t: string, i: nat)
    requires forall k :: 0 <= k < |t| ==> CaseFree(t[k])
    requires i <= |s|
    ensures (t <= Lower(s)[i..]) == (t <= s[i..])
  {
    var low := Lower(s);
    if |t| <= |s| - i {
      forall k | 0 <= k < |t| ensures (low[i + k] == t[k]) == (s[i + k] == t[k]) {
        assert low[i + k] == LowerChar(s[i + k]);
      }
      if t <= s[i..] {
        assert forall k :: 0 <= k < |t| ==> low[i..][k] == low[i + k] && s[i..][k] == s[i + k];
      }
      if t <= low[i..] {
        assert forall k :: 0 <= k < |t| ==> low[i..][k] == low[i + k] && s[i..][k] == s[i + k];
        assert t == s[i..][..|t|];
      }
    }
  }

  /** Lower-casing cannot create or remove an occurrence of a string that has no letter. */
  lemma ContainsLowerCaseFree(s: string, t: string)
    requires forall k :: 0 <= k < |t| ==> CaseFree(t[k])
    ensures Contains(Lower(s), t) == Contains(s, t)
  {
    if Contains(s, t) {
      var i :| 0 <= i <= |s| && t <= s[i..];
      PrefixLower(s, t, i);
    }
    if Contains(Lower(s), t) {
      var i :| 0 <= i <= |Lower(s)| && t <= Lower(s)[i..];
      PrefixLower(s, t, i);
    }
  }

  /** Every test except `divideConquer` is blind to letter case: lower-casing the snippet
      first changes none of them. */
  lemma CaseInsensitivePatterns(code: string)
    ensures TextPatterns(Lower(code)).sorting == TextPatterns(code).sorting
    ensures TextPatterns(Lower(code)).binarySearch == TextPatterns(code).binarySearch
    ensures TextPatterns(Lower(code)).dynamicProgramming == TextPatterns(code).dynamicProgramming
    ensures TextPatterns(Lower(code)).logarithmic == TextPatterns(code).logarithmic
  {
    LowerIdempotent(code);
    ContainsLowerCaseFree(code, "//");
  }

  /** A floor division anywhere in the text marks the snippet logarithmic, and a `//2`
      also marks it divide-and-conquer by the keyword test. */
  lemma FloorDivisionPatterns(code: string)
    requires Contains(code, "//")
    ensures TextPatterns(code).logarithmic
    ensures Contains(code, "//2") ==> TextPatterns(code).divideConquer
  {
    if Contains(code, "//2") {
      assert Contains(code, DivideWords[0]);
    }
  }

  /** For a recursive snippet the divide-and-conquer flag comes from the tree alone: the
      keyword test is overridden, so `mid` in the text no longer matters. */
  lemma RecursiveDivideConquerFromTree(tree: Node, code: string)
    ensures Detected(tree, code, true).divideConquer <==> exists p :: DivisionAt(tree, p)
  {
    HasDivisionIffSomeDivision(tree);
  }
}
