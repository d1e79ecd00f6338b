/**
 * Direct-recursion detection (`ComplexityDetector.detect_recursion` and its
 * `RecursionDetector` visitor): a function is recursive when a call whose
 * callee is its bare name occurs inside it, with no other `def` in between.
 */
module RecursionDetection {
  import opened Wrappers
  import opened SyntaxTree

  /** Python's truth test `if self.current_function`: some function name, and not empty. */
  predicate Active(cur: Option<string>) {
    cur.Some? && cur.value != ""
  }

  /** The enclosing function while the children of `n` are visited. */
  function Inner(n: Node, cur: Option<string>): Option<string> {
    if n.FunctionDef? then Some(n.name) else cur
  }

  /** `n` is a call of the function the visitor is currently inside. */
  predicate IsSelfCall(n: Node, cur: Option<string>) {
    n.Call? && Active(cur) && n.func.Name? && n.func.id == cur.value
  }

  /** The names `visit_Call` adds for the node itself. */
  function FlaggedAt(n: Node, cur: Option<string>): set<string> {
    if IsSelfCall(n, cur) then {cur.value} else {}
  }

  /** The names the visitor adds to `recursive_calls` while it visits `n` inside `cur`. */
  function RecursiveNames(n: Node, cur: Option<string>): set<string>
    decreases n, |Children(n)| + 1
  {
    FlaggedAt(n, cur) + RecursiveNamesKids(n, Inner(n, cur), |Children(n)|)
  }

  /** The names added while visiting the first `i` children of `n` inside `ctx`. */
  function RecursiveNamesKids(n: Node, ctx: Option<string>, i: nat): set<string>
    requires i <= |Children(n)|
    decreases n, i
  {
    if i == 0 then {}
    else RecursiveNamesKids(n, ctx, i - 1) + RecursiveNames(Children(n)[i - 1], ctx)
  }

  // ---------------------------------------------------------------------------
  // The visitor
  // ---------------------------------------------------------------------------

  class RecursionDetector {
    var currentFunction: Option<string>
    var recursiveCalls: set<string>

    constructor ()
      ensures currentFunction == None && recursiveCalls == {}
    {
      currentFunction := None;
      recursiveCalls := {};
    }

    /** `visit`: dispatches to `visit_FunctionDef`, `visit_Call` or `generic_visit`. */
    method Visit(n: Node)
      modifies this
      decreases n, 2
      ensures currentFunction == old(currentFunction)
      ensures recursiveCalls == old(recursiveCalls) + RecursiveNames(n, old(currentFunction))
    {
      if n.FunctionDef? {
        var oldFunction := currentFunction;
        currentFunction := Some(n.name);
        GenericVisit(n);
        currentFunction := oldFunction;
      } else if n.Call? {
        if currentFunction.Some? && currentFunction.value != "" && n.func.Name? {
          if n.func.id == currentFunction.value {
            recursiveCalls := recursiveCalls + {currentFunction.value};
          }
        }
        GenericVisit(n);
      } else {
        GenericVisit(n);
      }
    }

    /** `generic_visit`: visits the children in order. */
    method GenericVisit(n: Node)
      modifies this
      decreases n, 1
      ensures currentFunction == old(currentFunction)
      ensures recursiveCalls ==
              old(recursiveCalls) + RecursiveNamesKids(n, old(currentFunction), |Children(n)|)
    {
      var children := Children(n);
      ghost var ctx, start := currentFunction, recursiveCalls;
      for i := 0 to |children|
        invariant currentFunction == ctx
        invariant recursiveCalls == start + RecursiveNamesKids(n, ctx, i)
      {
        VisitChild(n, i);
        KidsStep(n, ctx, i);
        UnionAssoc(start, RecursiveNamesKids(n, ctx, i), RecursiveNames(children[i], ctx));
      }
    }

    /** One turn of the loop of `generic_visit`: visits child `i` of `n`. */
    method VisitChild(n: Node, i: nat)
      requires i < |Children(n)|
      modifies this
      decreases n, 0
      ensures currentFunction == old(currentFunction)
      ensures recursiveCalls == old(recursiveCalls) + RecursiveNames(Children(n)[i], old(currentFunction))
    {
      Visit(Children(n)[i]);
    }
  }

  lemma UnionAssoc(a: set<string>, b: set<string>, c: set<string>)
    ensures (a + b) + c == a + (b + c)
  {
  }

  /** Visiting one more child adds the names that child adds. */
  lemma KidsStep(n: Node, ctx: Option<string>, i: nat)
    requires i < |Children(n)|
    ensures RecursiveNamesKids(n, ctx, i + 1) ==
            RecursiveNamesKids(n, ctx, i) + RecursiveNames(Children(n)[i], ctx)
  {
  }

  /** `detect_recursion`: the set of recursive functions of a parsed snippet. */
  method DetectRecursion(tree: Node) returns (names: set<string>)
    ensures names == RecursiveNames(tree, None)
    ensures forall f :: f in names <==> exists p :: IsInnermostSelfCall(tree, p, f)
  {
    var detector := new RecursionDetector();
    detector.Visit(tree);
    names := detector.recursiveCalls;
    forall f ensures f in names <==> exists p :: IsInnermostSelfCall(tree, p, f) {
      FlaggedIffInnermostSelfCall(tree, f);
    }
  }

  // ---------------------------------------------------------------------------
  // What the flagged names are, stated over paths
  // ---------------------------------------------------------------------------

  /** The value of `current_function` when the visitor reaches the end of path `p`. */
  function ContextAt(n: Node, p: seq<nat>, cur: Option<string>): Option<string>
    requires IsPath(n, p)
    decreases |p|
  {
    if p == [] then cur else ContextAt(Children(n)[p[0]], p[1..], Inner(n, cur))
  }

  /** The name of the nearest `FunctionDef` strictly above the end of `p`, looking upward
      from the end of the path, or `cur` if there is none. */
  function EnclosingName(n: Node, p: seq<nat>, cur: Option<string>): Option<string>
    requires IsPath(n, p)
    decreases |p|
  {
    if p == [] then cur
    else
      var q := p[..|p| - 1];
      PrefixIsPath(n, p, |p| - 1);
      var parent := NodeAt(n, q).value;
      if parent.FunctionDef? then Some(parent.name) else EnclosingName(n, q, cur)
  }

  /** The end of path `q` is a `def`. */
  predicate IsDefAt(n: Node, q: seq<nat>) {
    NodeAt(n, q).Some? && NodeAt(n, q).value.FunctionDef?
  }

  /** At the end of `p` there is a call of `f` by its bare name, and the nearest `def`
      enclosing that call is a function named `f`. */
  ghost predicate IsInnermostSelfCall(tree: Node, p: seq<nat>, f: string) {
    IsPath(tree, p) && f != "" &&
    NodeAt(tree, p).value.Call? && NodeAt(tree, p).value.func == Name(f) &&
    EnclosingName(tree, p, None) == Some(f)
  }

  /** Entering child `j` of `n` leaves the nearest enclosing name of every deeper node the same. */
  lemma {:induction false} EnclosingNameCons(n: Node, j: nat, q: seq<nat>, cur: Option<string>)
    requires j < |Children(n)| && IsPath(Children(n)[j], q) && IsPath(n, [j] + q)
    ensures EnclosingName(n, [j] + q, cur) == EnclosingName(Children(n)[j], q, Inner(n, cur))
    decreases |q|
  {
    NodeAtCons(n, j, q);
    var p := [j] + q;
    if q == [] {
      assert p[..|p| - 1] == [];
    } else {
      var q' := q[..|q| - 1];
      assert p[..|p| - 1] == [j] + q';
      PrefixIsPath(Children(n)[j], q, |q| - 1);
      NodeAtCons(n, j, q');
      PrefixIsPath(n, p, |p| - 1);
      EnclosingNameCons(n, j, q', cur);
    }
  }

  /** The visitor's save-and-restore of `current_function` tracks exactly the nearest
      enclosing `def`. */
  lemma {:induction false} ContextIsEnclosingName(n: Node, p: seq<nat>, cur: Option<string>)
    requires IsPath(n, p)
    ensures ContextAt(n, p, cur) == EnclosingName(n, p, cur)
    decreases |p|
  {
    if p != [] {
      var c := Children(n)[p[0]];
      assert p == [p[0]] + p[1..];
      NodeAtCons(n, p[0], p[1..]);
      ContextIsEnclosingName(c, p[1..], Inner(n, cur));
      EnclosingNameCons(n, p[0], p[1..], cur);
    }
  }

  /** Child `j` of `n` adds `f` when visited inside `ctx`. */
  predicate ChildFlags(n: Node, ctx: Option<string>, j: nat, f: string)
    requires j < |Children(n)|
  {
    f in RecursiveNames(Children(n)[j], ctx)
  }

  /** A name is added for some child among the first `i` exactly when some such child adds it. */
  lemma KidsWitness(n: Node, ctx: Option<string>, i: nat, f: string)
    requires i <= |Children(n)|
    ensures f in RecursiveNamesKids(n, ctx, i) <==> exists j :: 0 <= j < i && ChildFlags(n, ctx, j, f)
  {
    if f in RecursiveNamesKids(n, ctx, i) {
      var j := KidWitness(n, ctx, i, f);
    }
    if exists j :: 0 <= j < i && ChildFlags(n, ctx, j, f) {
      var j :| 0 <= j < i && ChildFlags(n, ctx, j, f);
      KidFlags(n, ctx, i, j, f);
    }
  }

  /** The child among the first `i` that added `f`. */
  lemma {:induction false} KidWitness(n: Node, ctx: Option<string>, i: nat, f: string) returns (j: nat)
    requires i <= |Children(n)| && f in RecursiveNamesKids(n, ctx, i)
    ensures j < i && ChildFlags(n, ctx, j, f)
  {
    KidsStep(n, ctx, i - 1);
    if f in RecursiveNames(Children(n)[i - 1], ctx) {
      j := i - 1;
    } else {
      j := KidWitness(n, ctx, i - 1, f);
    }
  }

  /** A name added by one of the first `i` children is added for them. */
  lemma {:induction false} KidFlags(n: Node, ctx: Option<string>, i: nat, j: nat, f: string)
    requires j < i <= |Children(n)| && ChildFlags(n, ctx, j, f)
    ensures f in RecursiveNamesKids(n, ctx, i)
  {
    KidsStep(n, ctx, i - 1);
    if j < i - 1 {
      KidFlags(n, ctx, i - 1, j, f);
      assert f in RecursiveNamesKids(n, ctx, i - 1);
    } else {
      assert f in RecursiveNames(Children(n)[i - 1], ctx);
    }
  }

  /** The end of `p` is a self-call of `f` in the visitor's context there. */
  predicate SelfCallAt(n: Node, p: seq<nat>, cur: Option<string>, f: string) {
    IsPath(n, p) && IsSelfCall(NodeAt(n, p).value, ContextAt(n, p, cur)) &&
    ContextAt(n, p, cur) == Some(f)
  }

  /** Every name the visitor adds comes from a self-call below `n`. */
  lemma {:induction false} FlaggedHasSelfCall(n: Node, cur: Option<string>, f: string)
    requires f in RecursiveNames(n, cur)
    ensures exists p :: SelfCallAt(n, p, cur, f)
    decreases n
  {
    if f in FlaggedAt(n, cur) {
      assert SelfCallAt(n, [], cur, f);
    } else {
      var cs := Children(n);
      var ctx := Inner(n, cur);
      KidsWitness(n, ctx, |cs|, f);
      var j :| 0 <= j < |cs| && ChildFlags(n, ctx, j, f);
      FlaggedHasSelfCall(cs[j], ctx, f);
      var q :| SelfCallAt(cs[j], q, ctx, f);
      NodeAtCons(n, j, q);
      assert ([j] + q)[1..] == q;
      assert SelfCallAt(n, [j] + q, cur, f);
    }
  }

  /** Every self-call below `n` makes the visitor add its name. */
  lemma {:induction false} SelfCallIsFlagged(n: Node, p: seq<nat>, cur: Option<string>, f: string)
    requires SelfCallAt(n, p, cur, f)
    ensures f in RecursiveNames(n, cur)
    decreases |p|
  {
    if p == [] {
      assert f in FlaggedAt(n, cur);
    } else {
      var cs := Children(n);
      var ctx := Inner(n, cur);
      var j, q := p[0], p[1..];
      assert SelfCallAt(cs[j], q, ctx, f);
      SelfCallIsFlagged(cs[j], q, ctx, f);
      assert ChildFlags(n, ctx, j, f);
      KidsWitness(n, ctx, |cs|, f);
    }
  }

  /** `f` is added while visiting `n` inside `cur` iff some call below `n` is a self-call
      of `f` in the visitor's context at that call. */
  lemma FlaggedIffSelfCallAt(n: Node, cur: Option<string>, f: string)
    ensures f in RecursiveNames(n, cur) <==> exists p :: SelfCallAt(n, p, cur, f)
  {
    if f in RecursiveNames(n, cur) {
      FlaggedHasSelfCall(n, cur, f);
    }
    forall p | SelfCallAt(n, p, cur, f) ensures f in RecursiveNames(n, cur) {
      SelfCallIsFlagged(n, p, cur, f);
    }
  }

  /** A function is flagged recursive iff some call of it by bare name lies inside it with
      no other `def` in between. */
  lemma FlaggedIffInnermostSelfCall(tree: Node, f: string)
    ensures f in RecursiveNames(tree, None) <==> exists p :: IsInnermostSelfCall(tree, p, f)
  {
    FlaggedIffSelfCallAt(tree, None, f);
    forall p | IsPath(tree, p)
      ensures SelfCallAt(tree, p, None, f) <==> IsInnermostSelfCall(tree, p, f)
    {
      ContextIsEnclosingName(tree, p, None);
    }
  }

  /** A call with no `def` above it (module level) never makes anything recursive. */
  lemma {:induction false} ModuleLevelCallsNotFlagged(tree: Node, p: seq<nat>)
    requires IsPath(tree, p)
    requires forall k :: 0 <= k < |p| ==> !IsDefAt(tree, p[..k])
    ensures EnclosingName(tree, p, None) == None
    decreases |p|
  {
    if p != [] {
      var q := p[..|p| - 1];
      PrefixIsPath(tree, p, |p| - 1);
      forall k | 0 <= k < |q|
        ensures !IsDefAt(tree, q[..k])
      {
        assert q[..k] == p[..k];
      }
      assert !IsDefAt(tree, q);
      ModuleLevelCallsNotFlagged(tree, q);
    }
  }
}
