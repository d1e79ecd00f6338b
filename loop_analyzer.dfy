/**
 * Loop-structure analysis (`ComplexityDetector.analyze_loops` and its
 * `LoopAnalyzer` visitor): nesting depth of `for`/`while`, one record per
 * `for` loop with its iterator classified, and the dependent-loop flag.
 */
module LoopAnalysis {
  import opened Wrappers
  import opened SyntaxTree

  datatype IteratorKind = RangeIterator | LenIterator | VariableIterator | UnknownIterator

  /** `analyze_iterator`'s dictionary `{'type': ..., 'depends_on_outer': ...}`. */
  datatype IteratorInfo = IteratorInfo(kind: IteratorKind, dependsOnOuter: bool)

  /** One entry of `loop_structures`: the loop's depth, its variable and its iterator. */
  datatype LoopRecord = LoopRecord(depth: nat, variable: Option<string>, iterInfo: IteratorInfo)

  /** The dictionary `analyze_loops` returns. */
  datatype LoopSummary = LoopSummary(maxDepth: nat, structures: seq<LoopRecord>, hasDependent: bool)

  /** `analyze_iterator`: classifies the iterable of a `for` loop. */
  function AnalyzeIterator(n: Node): (info: IteratorInfo)
    ensures info.kind == RangeIterator <==> n.Call? && n.func == Name("range")
    ensures info.kind == LenIterator <==> n.Call? && n.func == Name("len")
    ensures info.kind == VariableIterator <==> n.Name?
    ensures info.dependsOnOuter <==>
            info.kind == RangeIterator && |n.args| > 0 && (n.args[0].BinOp? || n.args[0].Name?)
  {
    if n.Call? then
      if n.func.Name? && n.func.id == "range" then
        IteratorInfo(RangeIterator, |n.args| > 0 && (n.args[0].BinOp? || n.args[0].Name?))
      else if n.func.Name? && n.func.id == "len" then
        IteratorInfo(LenIterator, false)
      else
        IteratorInfo(UnknownIterator, false)
    else if n.Name? then
      IteratorInfo(VariableIterator, false)
    else
      IteratorInfo(UnknownIterator, false)
  }

  /** `node.target.id if isinstance(node.target, ast.Name) else None`. */
  function LoopVariable(target: Node): Option<string> {
    if target.Name? then Some(target.id) else None
  }

  function Max(a: nat, b: nat): nat {
    if a < b then b else a
  }

  /** The depth at which the children of `n` are visited when `n` is visited at depth `d`. */
  function InnerDepth(n: Node, d: nat): nat {
    if IsLoop(n) then d + 1 else d
  }

  // ---------------------------------------------------------------------------
  // What one traversal computes
  // ---------------------------------------------------------------------------

  /** The greatest number of nested loops below and including `n`. */
  function LoopDepth(n: Node): nat
    decreases n, |Children(n)| + 1
  {
    (if IsLoop(n) then 1 else 0) + LoopDepthKids(n, |Children(n)|)
  }

  function LoopDepthKids(n: Node, i: nat): nat
    requires i <= |Children(n)|
    decreases n, i
  {
    if i == 0 then 0 else Max(LoopDepthKids(n, i - 1), LoopDepth(Children(n)[i - 1]))
  }

  /** The records `visit_For` appends, in visiting order, when `n` is visited at depth `d`. */
  function Records(n: Node, d: nat): seq<LoopRecord>
    decreases n, |Children(n)| + 1
  {
    var kids := RecordsKids(n, InnerDepth(n, d), |Children(n)|);
    if n.For? then [LoopRecord(d + 1, LoopVariable(n.target), AnalyzeIterator(n.iter))] + kids
    else kids
  }

  function RecordsKids(n: Node, d: nat, i: nat): seq<LoopRecord>
    requires i <= |Children(n)|
    decreases n, i
  {
    if i == 0 then [] else RecordsKids(n, d, i - 1) + Records(Children(n)[i - 1], d)
  }

  /** Whether visiting `n` at depth `d` sets `has_dependent_loops`. */
  function Dependent(n: Node, d: nat): bool
    decreases n, |Children(n)| + 1
  {
    (n.For? && d + 1 > 1 && AnalyzeIterator(n.iter).dependsOnOuter) ||
    DependentKids(n, InnerDepth(n, d), |Children(n)|)
  }

  function DependentKids(n: Node, d: nat, i: nat): bool
    requires i <= |Children(n)|
    decreases n, i
  {
    i > 0 && (DependentKids(n, d, i - 1) || Dependent(Children(n)[i - 1], d))
  }

  // ---------------------------------------------------------------------------
  // The visitor
  // ---------------------------------------------------------------------------

  class LoopAnalyzer {
    var maxDepth: nat
    var currentDepth: nat
    var loopStructures: seq<LoopRecord>
    var hasDependentLoops: bool

    constructor ()
      ensures maxDepth == 0 && currentDepth == 0 && loopStructures == [] && !hasDependentLoops
    {
      maxDepth, currentDepth := 0, 0;
      loopStructures := [];
      hasDependentLoops := false;
    }

    /** `visit`: dispatches to `visit_For`, `visit_While` or `generic_visit`. */
    method Visit(n: Node)
      requires currentDepth <= maxDepth
      modifies this
      decreases n, 2
      ensures currentDepth == old(currentDepth) && currentDepth <= maxDepth
      ensures maxDepth == Max(old(maxDepth), old(currentDepth) + LoopDepth(n))
      ensures loopStructures == old(loopStructures) + Records(n, old(currentDepth))
      ensures hasDependentLoops == (old(hasDependentLoops) || Dependent(n, old(currentDepth)))
    {
      if n.For? {
        currentDepth := currentDepth + 1;
        maxDepth := Max(maxDepth, currentDepth);
        var loopVar := LoopVariable(n.target);
        var iterInfo := AnalyzeIterator(n.iter);
        loopStructures := loopStructures + [LoopRecord(currentDepth, loopVar, iterInfo)];
        if currentDepth > 1 && iterInfo.dependsOnOuter {
          hasDependentLoops := true;
        }
        GenericVisit(n);
        currentDepth := currentDepth - 1;
      } else if n.While? {
        currentDepth := currentDepth + 1;
        maxDepth := Max(maxDepth, currentDepth);
        GenericVisit(n);
        currentDepth := currentDepth - 1;
      } else {
        GenericVisit(n);
      }
    }

    /** `generic_visit`: visits the children in order at the current depth. */
    method GenericVisit(n: Node)
      requires currentDepth <= maxDepth
      modifies this
      decreases n, 1
      ensures currentDepth == old(currentDepth) && currentDepth <= maxDepth
      ensures maxDepth == Max(old(maxDepth), old(currentDepth) + LoopDepthKids(n, |Children(n)|))
      ensures loopStructures ==
              old(loopStructures) + RecordsKids(n, old(currentDepth), |Children(n)|)
      ensures hasDependentLoops ==
              (old(hasDependentLoops) || DependentKids(n, old(currentDepth), |Children(n)|))
    {
      var children := Children(n);
      ghost var d, m0, r0, h0 := currentDepth, maxDepth, loopStructures, hasDependentLoops;
      for i := 0 to |children|
        invariant currentDepth == d && currentDepth <= maxDepth
        invariant maxDepth == Max(m0, d + LoopDepthKids(n, i))
        invariant loopStructures == r0 + RecordsKids(n, d, i)
        invariant hasDependentLoops == (h0 || DependentKids(n, d, i))
      {
        VisitChild(n, i);
        KidsStep(n, d, i);
        AppendAssoc(r0, RecordsKids(n, d, i), Records(children[i], d));
        MaxStep(m0, d, LoopDepthKids(n, i), LoopDepth(children[i]));
      }
    }

    /** One turn of the loop of `generic_visit`: visits child `i` of `n`. */
    method VisitChild(n: Node, i: nat)
      requires i < |Children(n)| && currentDepth <= maxDepth
      modifies this
      decreases n, 0
      ensures currentDepth == old(currentDepth) && currentDepth <= maxDepth
      ensures maxDepth == Max(old(maxDepth), old(currentDepth) + LoopDepth(Children(n)[i]))
      ensures loopStructures == old(loopStructures) + Records(Children(n)[i], old(currentDepth))
      ensures hasDependentLoops == (old(hasDependentLoops) || Dependent(Children(n)[i], old(currentDepth)))
    {
      Visit(Children(n)[i]);
    }
  }

  /** Visiting one more child at depth `d` takes in that child's depth, records and flag. */
  lemma KidsStep(n: Node, d: nat, i: nat)
    requires i < |Children(n)|
    ensures LoopDepthKids(n, i + 1) == Max(LoopDepthKids(n, i), LoopDepth(Children(n)[i]))
    ensures RecordsKids(n, d, i + 1) == RecordsKids(n, d, i) + Records(Children(n)[i], d)
    ensures DependentKids(n, d, i + 1) == (DependentKids(n, d, i) || Dependent(Children(n)[i], d))
  {
  }

  lemma MaxStep(m: nat, d: nat, a: nat, b: nat)
    ensures Max(Max(m, d + a), d + b) == Max(m, d + Max(a, b))
  {
  }

  lemma AppendAssoc(a: seq<LoopRecord>, b: seq<LoopRecord>, c: seq<LoopRecord>)
    ensures (a + b) + c == a + (b + c)
  {
  }

  /** `analyze_loops`: one traversal of the whole snippet from depth 0. */
  method AnalyzeLoops(tree: Node) returns (summary: LoopSummary)
    ensures summary.maxDepth == LoopDepth(tree)
    ensures summary.structures == Records(tree, 0)
    ensures summary.hasDependent == Dependent(tree, 0)
  {
    var analyzer := new LoopAnalyzer();
    analyzer.Visit(tree);
    summary := LoopSummary(analyzer.maxDepth, analyzer.loopStructures, analyzer.hasDependentLoops);
  }

  // ---------------------------------------------------------------------------
  // The depth is the deepest loop nesting on a root-to-node path
  // ---------------------------------------------------------------------------

  lemma {:induction false} KidsDepthAtLeast(n: Node, i: nat, j: nat)
    requires j < i <= |Children(n)|
    ensures LoopDepth(Children(n)[j]) <= LoopDepthKids(n, i)
  {
    if j < i - 1 {
      KidsDepthAtLeast(n, i - 1, j);
    }
  }

  lemma {:induction false} KidsDepthAttained(n: Node, i: nat)
    requires 0 < i <= |Children(n)|
    ensures exists j :: 0 <= j < i && LoopDepth(Children(n)[j]) == LoopDepthKids(n, i)
  {
    if i > 1 && LoopDepthKids(n, i - 1) >= LoopDepth(Children(n)[i - 1]) {
      KidsDepthAttained(n, i - 1);
    } else {
      assert LoopDepth(Children(n)[i - 1]) == LoopDepthKids(n, i);
    }
  }

  /** No root-to-node path crosses more loops than `LoopDepth` counts. */
  lemma {:induction false} LoopsOnPathAtMostDepth(n: Node, p: seq<nat>)
    requires IsPath(n, p)
    ensures LoopsOnPath(n, p) <= LoopDepth(n)
    decreases |p|
  {
    if p != [] {
      var cs := Children(n);
      LoopsOnPathAtMostDepth(cs[p[0]], p[1..]);
      KidsDepthAtLeast(n, |cs|, p[0]);
    }
  }

  /** Some root-to-node path crosses exactly `LoopDepth` loops. */
  lemma {:induction false} DeepestPathExists(n: Node)
    ensures exists p :: IsPath(n, p) && LoopsOnPath(n, p) == LoopDepth(n)
    decreases n
  {
    var cs := Children(n);
    if |cs| == 0 {
      assert IsPath(n, []) && LoopsOnPath(n, []) == LoopDepth(n);
    } else {
      KidsDepthAttained(n, |cs|);
      var j :| 0 <= j < |cs| && LoopDepth(cs[j]) == LoopDepthKids(n, |cs|);
      DeepestPathExists(cs[j]);
      var q :| IsPath(cs[j], q) && LoopsOnPath(cs[j], q) == LoopDepth(cs[j]);
      NodeAtCons(n, j, q);
      assert ([j] + q)[1..] == q;
      assert IsPath(n, [j] + q) && LoopsOnPath(n, [j] + q) == LoopDepth(n);
    }
  }

  /** `max_depth` is the maximum, over all root-to-node paths, of the loops on the path. */
  lemma MaxDepthIsDeepestNesting(tree: Node)
    ensures forall p :: IsPath(tree, p) ==> LoopsOnPath(tree, p) <= LoopDepth(tree)
    ensures exists p :: IsPath(tree, p) && LoopsOnPath(tree, p) == LoopDepth(tree)
  {
    forall p | IsPath(tree, p) ensures LoopsOnPath(tree, p) <= LoopDepth(tree) {
      LoopsOnPathAtMostDepth(tree, p);
    }
    DeepestPathExists(tree);
  }

  // ---------------------------------------------------------------------------
  // The records and the dependent-loop flag
  // ---------------------------------------------------------------------------

  /** A record that makes `has_dependent_loops` true: a nested loop whose bound depends
      on an outer one. */
  predicate IsDependentRecord(r: LoopRecord) {
    r.depth > 1 && r.iterInfo.dependsOnOuter
  }

  predicate AnyDependent(rs: seq<LoopRecord>) {
    exists k :: 0 <= k < |rs| && IsDependentRecord(rs[k])
  }

  lemma AnyDependentAppend(a: seq<LoopRecord>, b: seq<LoopRecord>)
    ensures AnyDependent(a + b) == (AnyDependent(a) || AnyDependent(b))
  {
    if AnyDependent(b) {
      var k :| 0 <= k < |b| && IsDependentRecord(b[k]);
      assert (a + b)[|a| + k] == b[k];
    }
    if AnyDependent(a) {
      var k :| 0 <= k < |a| && IsDependentRecord(a[k]);
      assert (a + b)[k] == a[k];
    }
    if AnyDependent(a + b) {
      var k :| 0 <= k < |a + b| && IsDependentRecord((a + b)[k]);
      if k < |a| {
        assert a[k] == (a + b)[k];
      } else {
        assert b[k - |a|] == (a + b)[k];
      }
    }
  }

  /** `has_dependent_loops` is true exactly when some recorded loop is nested (depth > 1)
      and has an iterator that depends on an outer loop. */
  lemma {:induction false} DependentIffDependentRecord(n: Node, d: nat)
    ensures Dependent(n, d) == AnyDependent(Records(n, d))
    decreases n, |Children(n)| + 1
  {
    var inner := InnerDepth(n, d);
    var kids := RecordsKids(n, inner, |Children(n)|);
    DependentKidsIffRecord(n, inner, |Children(n)|);
    if n.For? {
      var head := [LoopRecord(d + 1, LoopVariable(n.target), AnalyzeIterator(n.iter))];
      AnyDependentAppend(head, kids);
      assert IsDependentRecord(head[0]) == (d + 1 > 1 && AnalyzeIterator(n.iter).dependsOnOuter);
    }
  }

  lemma {:induction false} DependentKidsIffRecord(n: Node, d: nat, i: nat)
    requires i <= |Children(n)|
    ensures DependentKids(n, d, i) == AnyDependent(RecordsKids(n, d, i))
    decreases n, i
  {
    if i > 0 {
      DependentKidsIffRecord(n, d, i - 1);
      DependentIffDependentRecord(Children(n)[i - 1], d);
      AnyDependentAppend(RecordsKids(n, d, i - 1), Records(Children(n)[i - 1], d));
    }
  }

  /** Every loop visited at depth `d` or below is recorded at a depth strictly greater than
      `d` and at most `d + LoopDepth(n)`. */
  lemma {:induction false} RecordDepthsBounded(n: Node, d: nat)
    ensures forall k :: 0 <= k < |Records(n, d)| ==>
              d < Records(n, d)[k].depth <= d + LoopDepth(n)
    decreases n, |Children(n)| + 1
  {
    RecordKidsDepthsBounded(n, InnerDepth(n, d), |Children(n)|);
  }

  lemma {:induction false} RecordKidsDepthsBounded(n: Node, d: nat, i: nat)
    requires i <= |Children(n)|
    ensures forall k :: 0 <= k < |RecordsKids(n, d, i)| ==>
              d < RecordsKids(n, d, i)[k].depth <= d + LoopDepthKids(n, i)
    decreases n, i
  {
    if i > 0 {
      RecordKidsDepthsBounded(n, d, i - 1);
      RecordDepthsBounded(Children(n)[i - 1], d);
      var a: seq<LoopRecord>, b: seq<LoopRecord> := RecordsKids(n, d, i - 1), Records(Children(n)[i - 1], d);
      forall k | 0 <= k < |a + b|
        ensures d < (a + b)[k].depth <= d + LoopDepthKids(n, i)
      {
        if k >= |a| {
          assert (a + b)[k] == b[k - |a|];
        }
      }
    }
  }
}
