/**
 * `tree_sort`: insert the values one by one into a binary search tree (smaller values
 * to the left, equal and larger ones to the right), then read it back in order.
 */
module TreeSorting {
  import opened SortSpec

  /** A `TreeNode` and its subtrees; `Empty` is `None`. */
  datatype Tree = Empty | Node(left: Tree, value: int, right: Tree)

  function Elements(t: Tree): multiset<int> {
    match t
    case Empty => multiset{}
    case Node(l, v, r) => Elements(l) + multiset{v} + Elements(r)
  }

  /** Every value of `t` is below `b`. */
  predicate Below(t: Tree, b: int) {
    match t
    case Empty => true
    case Node(l, v, r) => v < b && Below(l, b) && Below(r, b)
  }

  /** Every value of `t` is at least `b`. */
  predicate AtLeast(t: Tree, b: int) {
    match t
    case Empty => true
    case Node(l, v, r) => b <= v && AtLeast(l, b) && AtLeast(r, b)
  }

  /** The search-tree order `insert` keeps: left of a node every value is smaller, right of
      it every value is at least as large. */
  predicate SearchTree(t: Tree) {
    match t
    case Empty => true
    case Node(l, v, r) => SearchTree(l) && SearchTree(r) && Below(l, v) && AtLeast(r, v)
  }

  /** `insert(root, value)`: the tree gains one occurrence of `value`. */
  function Insert(t: Tree, value: int): (r: Tree)
    ensures Elements(r) == Elements(t) + multiset{value}
  {
    match t
    case Empty => Node(Empty, value, Empty)
    case Node(l, v, rt) =>
      if value < v then Node(Insert(l, value), v, rt) else Node(l, v, Insert(rt, value))
  }

  /** Every bound that the tree and `value` respect still holds after the insertion. */
  lemma {:induction false} InsertBounds(t: Tree, value: int, b: int)
    ensures Below(t, b) && value < b ==> Below(Insert(t, value), b)
    ensures AtLeast(t, b) && b <= value ==> AtLeast(Insert(t, value), b)
  {
    match t
    case Empty =>
    case Node(l, v, r) =>
      if value < v {
        InsertBounds(l, value, b);
      } else {
        InsertBounds(r, value, b);
      }
  }

  /** Inserting into a search tree gives a search tree. */
  lemma {:induction false} InsertSearchTree(t: Tree, value: int)
    requires SearchTree(t)
    ensures SearchTree(Insert(t, value))
  {
    match t
    case Empty =>
    case Node(l, v, r) =>
      if value < v {
        InsertSearchTree(l, value);
        InsertBounds(l, value, v);
      } else {
        InsertSearchTree(r, value);
        InsertBounds(r, value, v);
      }
  }

  /** `inorder(root, result)`: the values of the tree, left subtree first. */
  function Inorder(t: Tree): (s: seq<int>)
    ensures |s| == |Elements(t)|
  {
    match t
    case Empty => []
    case Node(l, v, r) => Inorder(l) + [v] + Inorder(r)
  }

  /** Reading the tree back gives exactly its values. */
  lemma {:induction false} InorderElements(t: Tree)
    ensures multiset(Inorder(t)) == Elements(t)
  {
    match t
    case Empty =>
    case Node(l, v, r) =>
      InorderElements(l);
      InorderElements(r);
  }

  lemma {:induction false} InorderBounds(t: Tree, b: int)
    ensures Below(t, b) ==> forall i :: 0 <= i < |Inorder(t)| ==> Inorder(t)[i] < b
    ensures AtLeast(t, b) ==> forall i :: 0 <= i < |Inorder(t)| ==> b <= Inorder(t)[i]
  {
    match t
    case Empty =>
    case Node(l, v, r) =>
      InorderBounds(l, b);
      InorderBounds(r, b);
      var left, right := Inorder(l), Inorder(r);
      var s := left + [v] + right;
      forall i | 0 <= i < |s| ensures (Below(t, b) ==> s[i] < b) && (AtLeast(t, b) ==> b <= s[i]) {
        if i < |left| {
          assert s[i] == left[i];
        } else if i > |left| {
          assert s[i] == right[i - |left| - 1];
        } else {
          assert s[i] == v;
        }
      }
  }

  /** Reading a search tree in order gives a sorted list. */
  lemma {:induction false} InorderSorted(t: Tree)
    requires SearchTree(t)
    ensures Sorted(Inorder(t))
  {
    match t
    case Empty =>
    case Node(l, v, r) =>
      InorderSorted(l);
      InorderSorted(r);
      InorderBounds(l, v);
      InorderBounds(r, v);
      var left, right := Inorder(l), Inorder(r);
      SortedConcat(left, [v] + right);
      assert left + [v] + right == left + ([v] + right);
  }

  /** One turn of the insertion loop. */
  lemma InsertNext(root: Tree, input: seq<int>, i: int)
    requires 0 <= i < |input| && SearchTree(root) && Elements(root) == multiset(input[..i])
    ensures SearchTree(Insert(root, input[i])) && Elements(Insert(root, input[i])) == multiset(input[..i + 1])
  {
    PrefixStep(input, i);
    InsertSearchTree(root, input[i]);
  }

  /** `tree_sort`: an empty list gives `[]`; otherwise every value is inserted in list
      order and the tree is read back. */
  method TreeSort(input: seq<int>) returns (result: seq<int>)
    ensures SortedPermutation(result, input)
  {
    if |input| == 0 {
      return [];
    }
    var root := Empty;
    for i := 0 to |input|
      invariant SearchTree(root) && Elements(root) == multiset(input[..i])
    {
      InsertNext(root, input, i);
      root := Insert(root, input[i]);
    }
    assert input[..|input|] == input;
    InorderSorted(root);
    InorderElements(root);
    result := Inorder(root);
  }
}
