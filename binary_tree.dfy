/** The insertion tree: a root reference, the node-numbering counter, and the
    three operations `Add`, `Sort` and `Clear`. */
module BinaryTreeModel {
  import opened Wrappers
  import opened Nodes
  import opened TreeShape
  import opened Traversal

  /** The two child links of `m` as they are now. */
  function SlotsOf(m: Node): Slots
    reads m
  {
    Slots(m.left, m.right)
  }

  /** Hanging a fresh node below the end of its descent path, with the level
      and coordinate that position calls for, keeps every invariant of the
      tree and changes the links exactly at that one slot. */
  lemma InsertKeepsTree(t: Tree, n: Node, startY: int)
    requires Distinct(t) && Ordered(t) && Placed(t, null, 0, startY)
    requires n !in Elements(t) && t.Branch?
    requires var p := SearchPath(t, n.value);
      n.parent == p[|p| - 1] && n.level == |p| && n.y == startY + 100 * |p|
    ensures var t', p := Insert(t, n), SearchPath(t, n.value);
      Distinct(t') && Ordered(t') && Placed(t', null, 0, startY) &&
      Elements(t') == Elements(t) + {n} && Top(t') == Top(t) &&
      n.parent in Links(t) && Chosen(Links(t)[n.parent], n.value, n.parent) == null &&
      Links(t') == Links(t)[n.parent := Fill(Links(t)[n.parent], n.value, n.parent, n)][n := Slots(null, null)] &&
      SearchPath(t', n.value) == p + [n]
  {
    InsertDistinct(t, n);
    InsertOrdered(t, n);
    InsertElements(t, n);
    InsertLinks(t, n);
    InsertSearchPath(t, n);
    InsertTop(t, n);
    InsertPlaced(t, null, 0, startY, n);
  }

  /** Each node of `path` after the first is the child that the tie-break
      rule for `v` picks, in the heap as it is now, at the node before it. */
  ghost predicate FollowsChildren(path: seq<Node>, v: int)
    reads path
  {
    forall i :: 0 <= i < |path| - 1 ==> ChildStep(path, v, i)
  }

  /** Step `i` of `path` follows the heap's child links. */
  ghost predicate ChildStep(path: seq<Node>, v: int, i: int)
    requires 0 <= i < |path| - 1
    reads path[i]
  {
    path[i + 1] == Chosen(SlotsOf(path[i]), v, path[i])
  }

  class BinaryTree {
    var root: Node?
    /** The numbering counter the node constructor keeps: the index given to
        the most recently created node. */
    var counter: nat
    /** Vertical coordinate given to a root node. */
    const startY: int

    /** The shape the heap links describe. */
    ghost var Shape: Tree
    /** The nodes created since the current root was made, in creation order. */
    ghost var Created: seq<Node>

    ghost predicate Valid()
      reads this, Created
    {
      Distinct(Shape) && Ordered(Shape) && Placed(Shape, null, 0, startY) &&
      root == Top(Shape) &&
      (forall i :: 0 <= i < |Created| ==> Created[i] in Links(Shape) && Created[i].index == i) &&
      (forall m :: m in Links(Shape) ==> m in Created && SlotsOf(m) == Links(Shape)[m]) &&
      (Created != [] ==> Created[0] == root && counter == |Created| - 1)
    }

    constructor (startY: int)
      ensures Valid()
      ensures root == null && Shape == Nil && Created == [] && this.startY == startY
    {
      root := null;
      counter := 0;
      this.startY := startY;
      Shape := Nil;
      Created := [];
    }

    /** Makes a node, numbering it with the counter: a level-0 node restarts
        the numbering at 0, any other node takes the next number. */
    method NewNode(value: int, level: nat, parent: Node?, y: int) returns (n: Node)
      modifies this`counter
      ensures counter == if level == 0 then 0 else old(counter) + 1
      ensures fresh(n) && n.index == counter
      ensures n.value == value && n.level == level && n.parent == parent && n.y == y
      ensures n.left == null && n.right == null
    {
      counter := if level == 0 then 0 else counter + 1;
      n := new Node(value, level, parent, y, counter);
    }

    /** Inserts `value`, returning the nodes visited on the way down, ending
        with the new node; an absent value changes nothing and yields None. */
    method Add(value: Option<int>) returns (added: Option<seq<Node>>)
      requires Valid()
      modifies this, Created
      ensures Valid()
      ensures value.None? ==>
        added.None? && root == old(root) && counter == old(counter) &&
        Shape == old(Shape) && Created == old(Created) &&
        forall m :: m in old(Created) ==> SlotsOf(m) == old(SlotsOf(m))
      ensures value.Some? ==> added.Some? && |added.value| >= 1
      ensures value.Some? ==>
        var v, path := value.value, added.value;
        var n := path[|path| - 1];
        // the new node
        fresh(n) && n.value == v && SlotsOf(n) == Slots(null, null) &&
        n.index == |old(Created)| && counter == n.index &&
        n.level == |path| - 1 &&
        n.parent == (if |path| == 1 then null else path[|path| - 2]) &&
        n.y == (if |path| == 1 then startY else n.parent.y + 100) &&
        // the path
        path[0] == root &&
        path == SearchPath(old(Shape), v) + [n] &&
        FollowsChildren(path, v) &&
        // the tree
        root == (if old(root) == null then n else old(root)) &&
        Shape == Insert(old(Shape), n) &&
        Created == old(Created) + [n] &&
        (forall m :: m in old(Created) && m != n.parent ==> SlotsOf(m) == old(SlotsOf(m))) &&
        (|path| > 1 ==>
          var p := path[|path| - 2];
          p in old(Created) &&
          Chosen(old(SlotsOf(p)), v, p) == null &&
          SlotsOf(p) == Fill(old(SlotsOf(p)), v, p, n))
    {
      if value.None? {
        return None;
      }
      var v := value.value;
      if root == null {
        var n := NewNode(v, 0, null, startY);
        root := n;
        Shape := Branch(Nil, n, Nil);
        Created := [n];
        return Some([n]);
      }
      var path := SubtreeAdd(v);
      added := Some(path);
    }

    /** The non-empty case of `Add`: descend to the free slot the tie-break
        rule picks for `v` and hang a new node there. */
    method SubtreeAdd(v: int) returns (path: seq<Node>)
      requires Valid() && root != null
      modifies this, Created
      ensures Valid() && |path| >= 2
      ensures var n, p := path[|path| - 1], path[|path| - 2];
        fresh(n) && n.value == v && SlotsOf(n) == Slots(null, null) &&
        n.index == |old(Created)| && counter == n.index &&
        n.level == |path| - 1 && n.parent == p && n.y == p.y + 100 &&
        path[0] == root && root == old(root) &&
        path == SearchPath(old(Shape), v) + [n] &&
        FollowsChildren(path, v) &&
        Shape == Insert(old(Shape), n) &&
        Created == old(Created) + [n] &&
        (forall m :: m in old(Created) && m != p ==> SlotsOf(m) == old(SlotsOf(m))) &&
        p in old(Created) &&
        Chosen(old(SlotsOf(p)), v, p) == null &&
        SlotsOf(p) == Fill(old(SlotsOf(p)), v, p, n)
    {
      var found := FindSlot(v);
      var n := Attach(found, v);
      path := found + [n];
      assert FollowsChildren(path, v) by {
        SearchPathFollowsLinks(Shape, v);
        forall i | 0 <= i < |path| - 1
          ensures ChildStep(path, v, i)
        {
          assert LinkStep(path, Links(Shape), v, i);
        }
      }
    }

    /** Makes the node for `v` one level below the last node of its descent
        path `found` and hangs it in that node's free slot: the left slot when
        `v` is smaller, the right one otherwise. */
    method Attach(found: seq<Node>, v: int) returns (n: Node)
      requires Valid() && root != null
      requires found == SearchPath(Shape, v) && |found| >= 1
      requires var node := found[|found| - 1];
        node in Created && Chosen(SlotsOf(node), v, node) == null &&
        node.level == |found| - 1 && node.y == startY + 100 * (|found| - 1)
      modifies this, found[|found| - 1]
      ensures Valid() && root == old(root)
      ensures fresh(n) && n.value == v && SlotsOf(n) == Slots(null, null)
      ensures n.parent == found[|found| - 1] && n.level == |found| && n.y == n.parent.y + 100
      ensures n.index == |old(Created)| && counter == n.index
      ensures Shape == Insert(old(Shape), n) && Created == old(Created) + [n]
      ensures SearchPath(Shape, v) == found + [n]
      ensures forall m :: m in old(Created) && m != n.parent ==> SlotsOf(m) == old(SlotsOf(m))
      ensures SlotsOf(n.parent) == Fill(old(SlotsOf(found[|found| - 1])), v, n.parent, n)
    {
      var node := found[|found| - 1];
      ghost var before, created := Shape, Created;
      n := NewNode(v, |found|, node, node.y + 100);
      if GoesRight(v, node) {
        node.right := n;
      } else {
        node.left := n;
      }
      Shape := Insert(before, n);
      Created := created + [n];
      AttachKeepsValid(before, created, found, n);
    }

    /** The invariant after `Attach`: the heap links were those of `before`
        except at the last node of `found`, whose chosen slot now holds `n`. */
    lemma AttachKeepsValid(before: Tree, created: seq<Node>, found: seq<Node>, n: Node)
      requires Distinct(before) && Ordered(before) && Placed(before, null, 0, startY)
      requires root == Top(before) && root != null
      requires forall i :: 0 <= i < |created| ==> created[i] in Links(before) && created[i].index == i
      requires forall m :: m in Links(before) ==> m in created
      requires created != [] && created[0] == root && counter == |created| && n.index == |created|
      requires found == SearchPath(before, n.value) && |found| >= 1
      requires var node := found[|found| - 1];
        n.parent == node && n.level == |found| && n.y == startY + 100 * |found| &&
        node in Links(before) && SlotsOf(node) == Fill(Links(before)[node], n.value, node, n)
      requires forall m :: m in Links(before) && m != found[|found| - 1] ==> SlotsOf(m) == Links(before)[m]
      requires n !in created && SlotsOf(n) == Slots(null, null)
      requires Shape == Insert(before, n) && Created == created + [n]
      ensures Valid() && SearchPath(Shape, n.value) == found + [n]
    {
      var node := found[|found| - 1];
      var links: map<Node, Slots> := Links(before);
      assert n !in Elements(before) by {
        LinksDomain(before);
      }
      InsertKeepsTree(before, n, startY);
      assert Links(Shape) == links[node := Fill(links[node], n.value, node, n)][n := Slots(null, null)];
      forall m | m in Links(Shape)
        ensures m in Created && SlotsOf(m) == Links(Shape)[m]
      {
        if m != n && m != node {
          assert m in links;
        }
      }
      forall i | 0 <= i < |Created|
        ensures Created[i] in Links(Shape) && Created[i].index == i
      {
        if i < |Created| - 1 {
          assert Created[i] == created[i];
        }
      }
    }

    /** The descent of `add`: from the root, follow the child the tie-break
        rule picks until that child slot is empty. Returns the nodes passed,
        the last of which gets the new node. */
    method FindSlot(v: int) returns (path: seq<Node>)
      requires Valid() && root != null
      ensures path == SearchPath(Shape, v) && |path| >= 1 && path[0] == root
      ensures forall i :: 0 <= i < |path| ==> path[i] in Links(Shape) && path[i] in Created
      ensures FollowsChildren(path, v)
      ensures var last := path[|path| - 1];
        Chosen(SlotsOf(last), v, last) == null &&
        last.level == |path| - 1 && last.y == startY + 100 * (|path| - 1)
    {
      var node: Node := root;
      path := [node];
      ghost var sub := Shape;
      DescentStart(Shape, v, startY);
      DescentSlots(Shape, sub, path, v, startY);
      while (if GoesRight(v, node) then node.right else node.left) != null
        invariant Descent(Shape, sub, path, v, startY) && node == sub.node
        invariant SlotsOf(node) == Slots(Top(sub.left), Top(sub.right))
        decreases Size(sub)
      {
        DescentStep(Shape, sub, path, v, startY);
        if GoesRight(v, node) {
          node, sub := node.right, sub.right;
        } else {
          node, sub := node.left, sub.left;
        }
        path := path + [node];
        DescentSlots(Shape, sub, path, v, startY);
      }
      FoundSlot(sub, path, v);
    }

    /** Where the descent stops: the picked slot of the last node is empty,
        and the nodes passed are the search path of `v`. */
    lemma FoundSlot(sub: Tree, path: seq<Node>, v: int)
      requires Valid() && Descent(Shape, sub, path, v, startY)
      requires SlotsOf(sub.node) == Slots(Top(sub.left), Top(sub.right))
      requires Chosen(SlotsOf(sub.node), v, sub.node) == null
      ensures path == SearchPath(Shape, v) && |path| >= 1 && path[0] == root
      ensures forall i :: 0 <= i < |path| ==> path[i] in Links(Shape) && path[i] in Created
      ensures FollowsChildren(path, v)
      ensures var last := path[|path| - 1];
        Chosen(SlotsOf(last), v, last) == null &&
        last.level == |path| - 1 && last.y == startY + 100 * (|path| - 1)
    {
      DescentEnd(Shape, sub, path, v, startY);
      forall i | 0 <= i < |path| - 1
        ensures ChildStep(path, v, i)
      {
        assert LinkStep(path, Links(Shape), v, i);
      }
    }

    /** Records of the in-order walk: `Forward`, `Value`, `Backward` for every
        node, except that the root gets only its `Value` record. */
    method Sort() returns (trace: seq<Record>)
      requires Valid()
      ensures trace == Trace(Shape, root)
      ensures root == null ==> trace == []
      ensures root != null ==> |trace| == 3 * |Created| - 2
      ensures Sorted(ValuesOf(Visits(trace)))
      ensures |Visits(trace)| == |Created| && NoRepeats(Visits(trace))
      ensures forall m :: m in Created ==> m in Visits(trace)
      ensures Nested(trace)
      ensures forall k :: Forward(k) in trace <==> k in Created && k != root
      ensures forall k :: Backward(k) in trace <==> k in Created && k != root
    {
      LinksDomain(Shape);
      trace := TraversalTree(root, Shape, []);
      TraceVisits(Shape, root);
      InOrderElements(Shape);
      InOrderSorted(Shape);
      TraceLength(Shape, root);
      TraceNested(Shape, root);
      TraceRecords(Shape, root);
      CreatedCount();
    }

    /** The walk of the subtree `t` whose top is `node`, appended to `acc`. */
    method TraversalTree(node: Node?, ghost t: Tree, acc: seq<Record>) returns (result: seq<Record>)
      requires Valid() && Links(Shape).Keys == Elements(Shape)
      requires node == Top(t) && Distinct(t) && LinksWithin(t, Shape)
      ensures result == acc + Trace(t, root)
      decreases t
    {
      if node == null {
        return acc;
      }
      assert SlotsOf(node) == Slots(Top(t.left), Top(t.right)) by {
        ChildLinks(t);
        assert node in Created;
      }
      ChildLinks(t);
      ghost var f: seq<Record> := if node != root then [Forward(node)] else [];
      ghost var b: seq<Record> := if node != root then [Backward(node)] else [];
      TraceAfter(t, root, acc);
      result := acc;
      if node != root {
        result := result + [Forward(node)];
      }
      assert result == acc + f;
      result := TraversalTree(node.left, t.left, result);
      result := result + [Value(node)];
      result := TraversalTree(node.right, t.right, result);
      assert result == acc + f + Trace(t.left, root) + [Value(node)] + Trace(t.right, root);
      if node != root {
        result := result + [Backward(node)];
      }
      assert result == acc + f + Trace(t.left, root) + [Value(node)] + Trace(t.right, root) + b;
    }

    /** Sorting twice in a row gives the same records: Sort changes nothing. */
    method SortTwice() returns (first: seq<Record>, second: seq<Record>)
      requires Valid()
      ensures first == second
    {
      first := Sort();
      second := Sort();
    }

    /** Drops the whole tree. The counter is left alone: the next root
        restarts it. */
    method Clear()
      requires Valid()
      modifies this
      ensures Valid()
      ensures root == null && Shape == Nil && Created == []
      ensures counter == old(counter)
    {
      root := null;
      Shape := Nil;
      Created := [];
    }

    /** Starting over: after `Clear`, the next value becomes a fresh root
        numbered 0 at level 0, and `Add` returns just that root. */
    method ClearThenAdd(v: int) returns (added: Option<seq<Node>>)
      requires Valid()
      modifies this, Created
      ensures Valid() && root != null && added == Some([root])
      ensures root.value == v && root.level == 0 && root.parent == null && root.y == startY
      ensures root.index == 0 && counter == 0
      ensures Shape == Branch(Nil, root, Nil) && Created == [root]
    {
      Clear();
      added := Add(Some(v));
      assert SearchPath(Nil, v) == [];
      assert added.value == [] + [root] == [root];
      assert added == Some([root]);
    }

    /** The created nodes are exactly the tree's nodes, so there are as many
        of them as the tree has nodes. */
    lemma CreatedCount()
      requires Valid()
      ensures |Created| == Size(Shape)
    {
      InOrderElements(Shape);
      LinksDomain(Shape);
      var s := InOrder(Shape);
      assert NoRepeats(Created) by {
        forall i, j | 0 <= i < j < |Created| ensures Created[i] != Created[j] {
          assert Created[i].index == i && Created[j].index == j;
        }
      }
      NoRepeatsCard(Created);
      NoRepeatsCard(s);
      assert (set m | m in Created) == (set m | m in s);
    }
  }
}
