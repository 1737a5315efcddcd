/** The program's use of the tree: the numbers are added one by one, in the
    order given, then the `Value` records of the walk are read off as the
    sorted numbers. */
module BuildOrder {
  import opened Wrappers
  import opened Nodes
  import opened TreeShape
  import opened Traversal
  import opened BinaryTreeModel

  /** One step of the build order: add `numbers[i]`, keeping the tree's
      invariant, so that the in-order keys are the first `i + 1` numbers. */
  method AddNumber(tree: BinaryTree, numbers: seq<int>, i: nat)
    requires tree.Valid() && i < |numbers|
    requires multiset(ValuesOf(InOrder(tree.Shape))) == multiset(numbers[..i])
    modifies tree, tree.Created
    ensures tree.Valid()
    ensures multiset(ValuesOf(InOrder(tree.Shape))) == multiset(numbers[..i + 1])
    ensures forall m :: m in tree.Created ==> m in old(tree.Created) || fresh(m)
  {
    ghost var before := tree.Shape;
    assert numbers[..i + 1] == numbers[..i] + [numbers[i]];
    var added := tree.Add(Some(numbers[i]));
    var path := added.value;
    InsertValues(before, path[|path| - 1]);
  }

  /** The sort step: walk the tree and keep the keys of the `Value`
      records, in order. */
  method SortedKeys(tree: BinaryTree) returns (sorted: seq<int>)
    requires tree.Valid()
    ensures Sorted(sorted)
    ensures sorted == ValuesOf(InOrder(tree.Shape))
  {
    var trace := tree.Sort();
    TraceVisits(tree.Shape, tree.root);
    sorted := ValuesOf(Visits(trace));
  }

  /** Sorting by insertion: the keys read off the walk are the input keys,
      in non-decreasing order. */
  method SortNumbers(values: seq<int>, startY: int) returns (sorted: seq<int>)
    ensures Sorted(sorted)
    ensures multiset(sorted) == multiset(values)
  {
    var tree := new BinaryTree(startY);
    var i := 0;
    while i < |values|
      invariant 0 <= i <= |values|
      invariant fresh(tree) && tree.Valid()
      invariant forall m :: m in tree.Created ==> fresh(m)
      invariant multiset(ValuesOf(InOrder(tree.Shape))) == multiset(values[..i])
    {
      AddNumber(tree, values, i);
      i := i + 1;
    }
    assert values[..i] == values;
    sorted := SortedKeys(tree);
  }
}
