/**
 * The `RecursiveAnalyzer` visitor of `ComplexityDetector.analyze_recursive_complexity`:
 * for every `def` of a recursive function it counts, over all nodes `ast.walk`
 * yields, the calls of that function by its bare name, and notes whether a loop
 * occurs anywhere inside it.
 */
module RecursiveAnalysis {
  import opened Wrappers
  import opened SyntaxTree
  import RecursionDetection

  /** The node tests applied to the nodes `ast.walk` yields. */
  datatype NodeTest =
    | CallTo(name: string)   // `isinstance(child, ast.Call)` with `child.func` the bare name
    | LoopNode               // `isinstance(child, (ast.For, ast.While))`
    | AnyNode                // every node (a size measure)

  predicate Matches(n: Node, test: NodeTest) {
    match test
    case CallTo(f) => n.Call? && n.func == Name(f)
    case LoopNode => IsLoop(n)
    case AnyNode => true
  }

  // ---------------------------------------------------------------------------
  // Counting the nodes of a subtree
  // ---------------------------------------------------------------------------

  /** The number of nodes of the subtree `n` (itself included) that pass `test`. */
  function CountMatches(n: Node, test: NodeTest): nat
    decreases n, |Children(n)| + 1
  {
    (if Matches(n, test) then 1 else 0) + CountKids(n, test, |Children(n)|)
  }

  function CountKids(n: Node, test: NodeTest, i: nat): nat
    requires i <= |Children(n)|
    decreases n, i
  {
    if i == 0 then 0 else CountKids(n, test, i - 1) + CountMatches(Children(n)[i - 1], test)
  }

  /** The matching nodes of a sequence of subtrees. */
  function CountSeq(s: seq<Node>, test: NodeTest): nat {
    if s == [] then 0 else CountSeq(s[..|s| - 1], test) + CountMatches(s[|s| - 1], test)
  }

  lemma {:induction false} CountKidsIsCountSeq(n: Node, test: NodeTest, i: nat)
    requires i <= |Children(n)|
    ensures CountKids(n, test, i) == CountSeq(Children(n)[..i], test)
  {
    if i > 0 {
      CountKidsIsCountSeq(n, test, i - 1);
      assert Children(n)[..i][..i - 1] == Children(n)[..i - 1];
    }
  }

  lemma {:induction false} CountSeqAppend(a: seq<Node>, b: seq<Node>, test: NodeTest)
    ensures CountSeq(a + b, test) == CountSeq(a, test) + CountSeq(b, test)
    decreases |b|
  {
    if b != [] {
      assert (a + b)[..|a + b| - 1] == a + b[..|b| - 1];
      assert (a + b)[|a + b| - 1] == b[|b| - 1];
      CountSeqAppend(a, b[..|b| - 1], test);
    } else {
      assert a + b == a;
    }
  }

  /** The count of a node is its own match plus the count of its children. */
  lemma CountUnfold(n: Node, test: NodeTest)
    ensures CountMatches(n, test) == (if Matches(n, test) then 1 else 0) + CountSeq(Children(n), test)
  {
    CountKidsIsCountSeq(n, test, |Children(n)|);
    assert Children(n)[..|Children(n)|] == Children(n);
  }

  /** `for child in ast.walk(root): if <test>: count += 1`. `ast.walk` keeps a queue of
      nodes still to yield, starting from `root`, and appends each yielded node's
      children to it. */
  method WalkCount(root: Node, test: NodeTest) returns (count: nat)
    ensures count == CountMatches(root, test)
  {
    var todo := [root];
    count := 0;
    assert todo == [] + [root];
    while todo != []
      invariant count + CountSeq(todo, test) == CountMatches(root, test)
      decreases CountSeq(todo, AnyNode)
    {
      var node := todo[0];
      var rest := todo[1..];
      assert todo == [node] + rest;
      CountSeqAppend([node], rest, test);
      CountSeqAppend([node], rest, AnyNode);
      assert [node][..0] == [];
      CountUnfold(node, test);
      CountUnfold(node, AnyNode);
      CountSeqAppend(rest, Children(node), test);
      CountSeqAppend(rest, Children(node), AnyNode);
      todo := rest + Children(node);
      if Matches(node, test) {
        count := count + 1;
      }
    }
  }

  lemma {:induction false} CountKidsAtLeast(n: Node, test: NodeTest, i: nat, j: nat)
    requires j < i <= |Children(n)|
    ensures CountMatches(Children(n)[j], test) <= CountKids(n, test, i)
  {
    if j < i - 1 {
      CountKidsAtLeast(n, test, i - 1, j);
    }
  }

  // ---------------------------------------------------------------------------
  // What one traversal computes
  // ---------------------------------------------------------------------------

  function Max(a: nat, b: nat): nat {
    if a < b then b else a
  }

  /** `n` is the `def` of one of the recursive functions `fs`. */
  predicate IsRecursiveDef(n: Node, fs: set<string>) {
    n.FunctionDef? && n.name in fs
  }

  /** The self-calls `visit_FunctionDef` counts for the node itself (0 for other nodes). */
  function SelfCallsAt(n: Node, fs: set<string>): nat {
    if IsRecursiveDef(n, fs) then CountMatches(n, CallTo(n.name)) else 0
  }

  /** The largest per-definition count of self-calls seen while visiting `n`. */
  function MaxSelfCalls(n: Node, fs: set<string>): nat
    decreases n, |Children(n)| + 1
  {
    Max(SelfCallsAt(n, fs), MaxSelfCallsKids(n, fs, |Children(n)|))
  }

  function MaxSelfCallsKids(n: Node, fs: set<string>, i: nat): nat
    requires i <= |Children(n)|
    decreases n, i
  {
    if i == 0 then 0 else Max(MaxSelfCallsKids(n, fs, i - 1), MaxSelfCalls(Children(n)[i - 1], fs))
  }

  /** Whether some `def` of a recursive function visited below `n` contains a loop. */
  function LoopInRecursive(n: Node, fs: set<string>): bool
    decreases n, |Children(n)| + 1
  {
    (IsRecursiveDef(n, fs) && CountMatches(n, LoopNode) > 0) ||
    LoopInRecursiveKids(n, fs, |Children(n)|)
  }

  function LoopInRecursiveKids(n: Node, fs: set<string>, i: nat): bool
    requires i <= |Children(n)|
    decreases n, i
  {
    i > 0 && (LoopInRecursiveKids(n, fs, i - 1) || LoopInRecursive(Children(n)[i - 1], fs))
  }

  // ---------------------------------------------------------------------------
  // The visitor
  // ---------------------------------------------------------------------------

  class RecursiveAnalyzer {
    const recursiveFuncs: set<string>
    var recursiveCallsPerInvocation: nat
    var hasLinearWork: bool
    var hasLoopInRecursion: bool
    var currentInRecursive: bool

    constructor (fs: set<string>)
      ensures recursiveFuncs == fs
      ensures recursiveCallsPerInvocation == 0
      ensures !hasLinearWork && !hasLoopInRecursion && !currentInRecursive
    {
      recursiveFuncs := fs;
      recursiveCallsPerInvocation := 0;
      hasLinearWork, hasLoopInRecursion, currentInRecursive := false, false, false;
    }

    /** `visit`: `visit_FunctionDef` for a `def`, `generic_visit` otherwise. */
    method Visit(n: Node)
      modifies this
      decreases n, 1
      ensures currentInRecursive == old(currentInRecursive)
      ensures recursiveCallsPerInvocation ==
              Max(old(recursiveCallsPerInvocation), MaxSelfCalls(n, recursiveFuncs))
      ensures hasLoopInRecursion == (old(hasLoopInRecursion) || LoopInRecursive(n, recursiveFuncs))
      ensures hasLinearWork == (old(hasLinearWork) || LoopInRecursive(n, recursiveFuncs))
    {
      if n.FunctionDef? && n.name in recursiveFuncs {
        var oldState := currentInRecursive;
        currentInRecursive := true;
        var calls := WalkCount(n, CallTo(n.name));
        recursiveCallsPerInvocation := Max(recursiveCallsPerInvocation, calls);
        var loops := WalkCount(n, LoopNode);
        if loops > 0 {
          hasLoopInRecursion := true;
          hasLinearWork := true;
        }
        GenericVisit(n);
        currentInRecursive := oldState;
      } else {
        GenericVisit(n);
      }
    }

    method GenericVisit(n: Node)
      modifies this
      decreases n, 0
      ensures currentInRecursive == old(currentInRecursive)
      ensures recursiveCallsPerInvocation ==
              Max(old(recursiveCallsPerInvocation), MaxSelfCallsKids(n, recursiveFuncs, |Children(n)|))
      ensures hasLoopInRecursion ==
              (old(hasLoopInRecursion) || LoopInRecursiveKids(n, recursiveFuncs, |Children(n)|))
      ensures hasLinearWork ==
              (old(hasLinearWork) || LoopInRecursiveKids(n, recursiveFuncs, |Children(n)|))
    {
      var children := Children(n);
      for i := 0 to |children|
        invariant currentInRecursive == old(currentInRecursive)
        invariant recursiveCallsPerInvocation ==
                  Max(old(recursiveCallsPerInvocation), MaxSelfCallsKids(n, recursiveFuncs, i))
        invariant hasLoopInRecursion ==
                  (old(hasLoopInRecursion) || LoopInRecursiveKids(n, recursiveFuncs, i))
        invariant hasLinearWork == (old(hasLinearWork) || LoopInRecursiveKids(n, recursiveFuncs, i))
      {
        Visit(children[i]);
      }
    }
  }

  // ---------------------------------------------------------------------------
  // A flagged function has at least one counted self-call
  // ---------------------------------------------------------------------------

  lemma {:induction false} MaxKidsAtLeast(n: Node, fs: set<string>, i: nat, j: nat)
    requires j < i <= |Children(n)|
    ensures MaxSelfCalls(Children(n)[j], fs) <= MaxSelfCallsKids(n, fs, i)
  {
    if j < i - 1 {
      MaxKidsAtLeast(n, fs, i - 1, j);
    }
  }

  /** A name the recursion detector adds below `n` inside `cur` is either accounted for
      by a counted `def` below `n`, or it is the enclosing function `cur` itself and `n`
      contains one of its self-calls. */
  lemma {:induction false} FlaggedIsCounted(n: Node, cur: Option<string>, f: string, fs: set<string>)
    requires f in RecursionDetection.RecursiveNames(n, cur) && f in fs
    ensures MaxSelfCalls(n, fs) >= 1 || (cur == Some(f) && CountMatches(n, CallTo(f)) >= 1)
    decreases n
  {
    if f in RecursionDetection.FlaggedAt(n, cur) {
      assert cur == Some(f) && Matches(n, CallTo(f));
    } else {
      var cs := Children(n);
      var ctx := RecursionDetection.Inner(n, cur);
      RecursionDetection.KidsWitness(n, ctx, |cs|, f);
      var j :| 0 <= j < |cs| && RecursionDetection.ChildFlags(n, ctx, j, f);
      FlaggedIsCounted(cs[j], ctx, f, fs);
      MaxKidsAtLeast(n, fs, |cs|, j);
      CountKidsAtLeast(n, CallTo(f), |cs|, j);
    }
  }

  /** Once the recursion detector has flagged some function, the analyzer run with the
      flagged set counts at least one self-call: `recursive_calls_per_invocation` is never
      0 on the recursive path, so its last branch covers three or more calls. */
  lemma RecursiveHasSelfCall(tree: Node)
    requires RecursionDetection.RecursiveNames(tree, None) != {}
    ensures MaxSelfCalls(tree, RecursionDetection.RecursiveNames(tree, None)) >= 1
  {
    var fs := RecursionDetection.RecursiveNames(tree, None);
    var f :| f in fs;
    FlaggedIsCounted(tree, None, f, fs);
  }
}
