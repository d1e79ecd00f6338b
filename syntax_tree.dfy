/**
 * The part of Python's syntax tree that the complexity detector looks at. The
 * parser itself is not modelled: a parsed snippet is given as a `Node`, and a
 * snippet that fails to parse as `None`.
 *
 * Node kinds the detector does not single out (the module itself, `if`,
 * `return`, assignments, comparisons, attribute accesses, constants, ...) are
 * `Other` nodes that only carry their children, in the order in which
 * `ast.iter_child_nodes` yields them.
 */
module SyntaxTree {
  import opened Wrappers

  /** The binary operators of `ast.BinOp`; the detector tells only the two divisions apart. */
  datatype BinOperator = Add | Sub | Mult | Div | FloorDiv | Mod | Pow | OtherOperator

  datatype Node =
      /** `def name(...)`: `body` holds every child node (arguments, statements, decorators). */
    | FunctionDef(name: string, body: seq<Node>)
      /** `for target in iter: body` (the `else` block belongs to `body`). */
    | For(target: Node, iter: Node, body: seq<Node>)
      /** `while test: body` (the `else` block belongs to `body`). */
    | While(test: Node, body: seq<Node>)
      /** `func(*args, **keywords)`: positional arguments, then keyword values. */
    | Call(func: Node, args: seq<Node>, keywords: seq<Node>)
      /** A bare identifier. */
    | Name(id: string)
    | BinOp(left: Node, op: BinOperator, right: Node)
    | Other(children: seq<Node>)

  /** The children `NodeVisitor.generic_visit` and `ast.walk` visit, in field order. */
  function Children(n: Node): seq<Node> {
    match n
    case FunctionDef(_, body) => body
    case For(target, iter, body) => [target, iter] + body
    case While(test, body) => [test] + body
    case Call(func, args, keywords) => [func] + args + keywords
    case Name(_) => []
    case BinOp(left, _, right) => [left, right]
    case Other(children) => children
  }

  /** The two iteration statements, `ast.For` and `ast.While`. */
  predicate IsLoop(n: Node) {
    n.For? || n.While?
  }

  // ---------------------------------------------------------------------------
  // Paths: a root-to-node path is the sequence of child indices taken from the root.
  // ---------------------------------------------------------------------------

  /** The node reached from `n` by following the child indices `p`, if they exist. */
  function NodeAt(n: Node, p: seq<nat>): Option<Node>
    decreases |p|
  {
    if p == [] then Some(n)
    else if p[0] < |Children(n)| then NodeAt(Children(n)[p[0]], p[1..])
    else None
  }

  predicate IsPath(n: Node, p: seq<nat>) {
    NodeAt(n, p).Some?
  }

  /** One step down: a path that starts with child `j` is a path of that child. */
  lemma NodeAtCons(n: Node, j: nat, q: seq<nat>)
    requires j < |Children(n)|
    ensures NodeAt(n, [j] + q) == NodeAt(Children(n)[j], q)
  {
    assert ([j] + q)[1..] == q;
  }

  /** Every prefix of a path is a path. */
  lemma {:induction false} PrefixIsPath(n: Node, p: seq<nat>, k: nat)
    requires IsPath(n, p) && k <= |p|
    ensures IsPath(n, p[..k])
    decreases |p|
  {
    if k > 0 {
      assert p[..k][1..] == p[1..][..k - 1];
      PrefixIsPath(Children(n)[p[0]], p[1..], k - 1);
    }
  }

  /** Extending a path by one child index of the node it reaches. */
  lemma {:induction false} NodeAtSnoc(n: Node, q: seq<nat>, j: nat)
    requires IsPath(n, q) && j < |Children(NodeAt(n, q).value)|
    ensures NodeAt(n, q + [j]) == Some(Children(NodeAt(n, q).value)[j])
    decreases |q|
  {
    if q == [] {
      assert [] + [j] == [j];
      NodeAtCons(n, j, []);
    } else {
      assert (q + [j])[1..] == q[1..] + [j];
      NodeAtSnoc(Children(n)[q[0]], q[1..], j);
    }
  }

  /** How many `For`/`While` nodes lie on the path, both ends included. */
  function LoopsOnPath(n: Node, p: seq<nat>): nat
    requires IsPath(n, p)
    decreases |p|
  {
    (if IsLoop(n) then 1 else 0) + (if p == [] then 0 else LoopsOnPath(Children(n)[p[0]], p[1..]))
  }
}
