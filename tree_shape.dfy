/** The abstract shape of the insertion tree: which node sits where.
    Everything here is a pure function of node references; a node's key
    is a constant field, so nothing here reads the heap. */
module TreeShape {
  import opened Nodes

  datatype Tree = Nil | Branch(left: Tree, node: Node, right: Tree)

  /** The two child slots of one node. */
  datatype Slots = Slots(left: Node?, right: Node?)

  function Top(t: Tree): Node?
  {
    if t.Nil? then null else t.node
  }

  function Elements(t: Tree): set<Node>
  {
    match t
    case Nil => {}
    case Branch(l, m, r) => Elements(l) + {m} + Elements(r)
  }

  function Size(t: Tree): nat
  {
    match t
    case Nil => 0
    case Branch(l, _, r) => Size(l) + 1 + Size(r)
  }

  /** No node occurs twice in the tree. */
  predicate Distinct(t: Tree)
  {
    match t
    case Nil => true
    case Branch(l, m, r) =>
      m !in Elements(l) && m !in Elements(r) && Elements(l) !! Elements(r) &&
      Distinct(l) && Distinct(r)
  }

  /** The search-tree ordering with ties to the right: every key in a left
      subtree is smaller than the node's key, every key in a right subtree is
      at least the node's key. */
  predicate Ordered(t: Tree)
  {
    match t
    case Nil => true
    case Branch(l, m, r) =>
      (forall k :: k in Elements(l) ==> k.value < m.value) &&
      (forall k :: k in Elements(r) ==> m.value <= k.value) &&
      Ordered(l) && Ordered(r)
  }

  /** The tie-break rule: a key at least the node's key goes right. */
  predicate GoesRight(v: int, m: Node)
  {
    v >= m.value
  }

  /** The shape after `n` is hung in the first empty slot its key leads to. */
  function Insert(t: Tree, n: Node): Tree
  {
    match t
    case Nil => Branch(Nil, n, Nil)
    case Branch(l, m, r) =>
      if GoesRight(n.value, m) then Branch(l, m, Insert(r, n)) else Branch(Insert(l, n), m, r)
  }

  /** The existing nodes a descent for key `v` passes, from the top down. */
  function SearchPath(t: Tree, v: int): seq<Node>
  {
    match t
    case Nil => []
    case Branch(l, m, r) => [m] + SearchPath(if GoesRight(v, m) then r else l, v)
  }

  /** Every node of the tree mapped to its two children. */
  function Links(t: Tree): map<Node, Slots>
  {
    match t
    case Nil => map[]
    case Branch(l, m, r) => (Links(l) + Links(r))[m := Slots(Top(l), Top(r))]
  }

  /** The slot the tie-break rule picks for key `v` at node `m`. */
  function Chosen(s: Slots, v: int, m: Node): Node?
  {
    if GoesRight(v, m) then s.right else s.left
  }

  /** `s` with the slot picked for key `v` at node `m` set to `n`. */
  function Fill(s: Slots, v: int, m: Node, n: Node): Slots
  {
    if GoesRight(v, m) then s.(right := n) else s.(left := n)
  }

  /** Every node's parent, level and vertical coordinate agree with where it
      sits: the top of `t` has the given parent, level and coordinate, and
      each child has its parent as parent, one more level and 100 more. */
  predicate Placed(t: Tree, parent: Node?, level: nat, y: int)
  {
    match t
    case Nil => true
    case Branch(l, m, r) =>
      m.parent == parent && m.level == level && m.y == y &&
      Placed(l, m, level + 1, y + 100) && Placed(r, m, level + 1, y + 100)
  }

  /** The in-order sequence of nodes: left subtree, node, right subtree. */
  function InOrder(t: Tree): seq<Node>
  {
    match t
    case Nil => []
    case Branch(l, m, r) => InOrder(l) + [m] + InOrder(r)
  }

  function ValuesOf(s: seq<Node>): seq<int>
  {
    if s == [] then [] else [s[0].value] + ValuesOf(s[1..])
  }

  predicate Sorted(s: seq<int>)
  {
    forall i, j :: 0 <= i < j < |s| ==> s[i] <= s[j]
  }

  // ---------------------------------------------------------------------------
  // Links

  lemma {:induction false} LinksDomain(t: Tree)
    ensures Links(t).Keys == Elements(t)
  {
    match t
    case Nil =>
    case Branch(l, m, r) =>
      LinksDomain(l);
      LinksDomain(r);
  }

  /** Each node of `path` after the first is the child that the tie-break
      rule for `v` picks, according to `links`, at the node before it. */
  ghost predicate FollowsLinks(path: seq<Node>, links: map<Node, Slots>, v: int)
  {
    forall i :: 0 <= i < |path| - 1 ==> LinkStep(path, links, v, i)
  }

  /** Step `i` of `path` follows `links`. */
  ghost predicate LinkStep(path: seq<Node>, links: map<Node, Slots>, v: int, i: int)
    requires 0 <= i < |path| - 1
  {
    path[i] in links && path[i + 1] == Chosen(links[path[i]], v, path[i])
  }

  /** Every link of `part` is also a link of `whole`. */
  predicate LinksWithin(part: Tree, whole: Tree)
  {
    forall k :: k in Links(part) ==> k in Links(whole) && Links(whole)[k] == Links(part)[k]
  }

  /** In a tree without repeated nodes, the links of each subtree are links
      of the whole tree, and the top's entry names the two subtrees' tops. */
  lemma {:induction false} ChildLinks(t: Tree)
    requires Distinct(t) && t.Branch?
    ensures t.node in Links(t) && Links(t)[t.node] == Slots(Top(t.left), Top(t.right))
    ensures LinksWithin(t.left, t) && LinksWithin(t.right, t)
  {
    LinksDomain(t.left);
    LinksDomain(t.right);
  }

  // ---------------------------------------------------------------------------
  // Insertion

  lemma {:induction false} InsertElements(t: Tree, n: Node)
    ensures Elements(Insert(t, n)) == Elements(t) + {n}
    ensures Size(Insert(t, n)) == Size(t) + 1
  {
    match t
    case Nil =>
    case Branch(l, m, r) =>
      if GoesRight(n.value, m) { InsertElements(r, n); } else { InsertElements(l, n); }
  }

  /** A fresh node keeps the tree free of repeats. */
  lemma {:induction false} InsertDistinct(t: Tree, n: Node)
    requires Distinct(t) && n !in Elements(t)
    ensures Distinct(Insert(t, n))
  {
    match t
    case Nil =>
    case Branch(l, m, r) =>
      if GoesRight(n.value, m) {
        InsertDistinct(r, n);
        InsertElements(r, n);
      } else {
        InsertDistinct(l, n);
        InsertElements(l, n);
      }
  }

  /** Insertion by the tie-break rule keeps the search-tree ordering,
      duplicates included. */
  lemma {:induction false} InsertOrdered(t: Tree, n: Node)
    requires Ordered(t)
    ensures Ordered(Insert(t, n))
  {
    match t
    case Nil =>
    case Branch(l, m, r) =>
      if GoesRight(n.value, m) {
        InsertOrdered(r, n);
        InsertElements(r, n);
      } else {
        InsertOrdered(l, n);
        InsertElements(l, n);
      }
  }

  /** Insertion never changes the top of a non-empty tree; into an empty tree
      it makes the new node the top. */
  lemma InsertTop(t: Tree, n: Node)
    ensures Top(Insert(t, n)) == if t.Nil? then n else Top(t)
    ensures t.Nil? ==> Insert(t, n) == Branch(Nil, n, Nil)
  {
  }

  /** After insertion, the descent for the new key passes the old path and
      ends at the new node. */
  lemma {:induction false} InsertSearchPath(t: Tree, n: Node)
    ensures SearchPath(Insert(t, n), n.value) == SearchPath(t, n.value) + [n]
  {
    match t
    case Nil =>
    case Branch(l, m, r) =>
      if GoesRight(n.value, m) { InsertSearchPath(r, n); } else { InsertSearchPath(l, n); }
  }

  /** The descent path starts at the top, lists existing nodes only, and each
      later node is the child the tie-break rule picks at the one before;
      where it ends, the picked slot is empty. */
  lemma {:induction false} SearchPathFollowsLinks(t: Tree, v: int)
    requires Distinct(t)
    ensures var p := SearchPath(t, v);
      |p| <= Size(t) && (p == [] <==> t.Nil?) &&
      (p != [] ==> p[0] == Top(t)) &&
      (forall i :: 0 <= i < |p| ==> p[i] in Links(t)) &&
      FollowsLinks(p, Links(t), v) &&
      (p != [] ==> Chosen(Links(t)[p[|p| - 1]], v, p[|p| - 1]) == null)
  {
    match t
    case Nil =>
    case Branch(l, m, r) =>
      var c := if GoesRight(v, m) then r else l;
      SearchPathFollowsLinks(c, v);
      ChildLinks(t);
      var p := SearchPath(t, v);
      assert p == [m] + SearchPath(c, v);
      forall i | 0 <= i < |p| - 1
        ensures LinkStep(p, Links(t), v, i)
      {
        if i > 0 { assert LinkStep(SearchPath(c, v), Links(c), v, i - 1); }
      }
  }

  lemma UpdateUnionRight(A: map<Node, Slots>, B: map<Node, Slots>, x: Node, u: Slots, y: Node, w: Slots)
    requires x !in A && y !in A
    ensures A + B[x := u][y := w] == (A + B)[x := u][y := w]
  {
  }

  lemma UpdateUnionLeft(A: map<Node, Slots>, B: map<Node, Slots>, x: Node, u: Slots, y: Node, w: Slots)
    requires x !in A && y !in A
    ensures B[x := u][y := w] + A == (B + A)[x := u][y := w]
  {
  }

  // ---------------------------------------------------------------------------
  // The descent for a key, one node at a time

  /** Midway through the descent for `v` in `whole`: `path` lists the nodes
      passed so far, the last of them the top of `sub`, and each step went to
      the child the tie-break rule picks. */
  ghost predicate Descent(whole: Tree, sub: Tree, path: seq<Node>, v: int, y0: int)
  {
    sub.Branch? && |path| >= 1 && path[|path| - 1] == sub.node && path[0] == Top(whole) &&
    Distinct(sub) && LinksWithin(sub, whole) &&
    Placed(sub, sub.node.parent, |path| - 1, y0 + 100 * (|path| - 1)) &&
    SearchPath(whole, v) == path[..|path| - 1] + SearchPath(sub, v) &&
    (forall i :: 0 <= i < |path| ==> path[i] in Links(whole)) &&
    FollowsLinks(path, Links(whole), v)
  }

  lemma DescentStart(whole: Tree, v: int, y0: int)
    requires whole.Branch? && Distinct(whole) && Placed(whole, null, 0, y0)
    ensures Descent(whole, whole, [whole.node], v, y0)
  {
    ChildLinks(whole);
  }

  /** The links of the whole tree at the current node name the two
      subtrees' tops. */
  lemma DescentSlots(whole: Tree, sub: Tree, path: seq<Node>, v: int, y0: int)
    requires Descent(whole, sub, path, v, y0)
    ensures sub.node in Links(whole) && Links(whole)[sub.node] == Slots(Top(sub.left), Top(sub.right))
  {
    ChildLinks(sub);
  }

  /** One step down to the picked child, when that slot is not empty. */
  lemma {:induction false} DescentStep(whole: Tree, sub: Tree, path: seq<Node>, v: int, y0: int)
    requires Descent(whole, sub, path, v, y0)
    requires Chosen(Slots(Top(sub.left), Top(sub.right)), v, sub.node) != null
    ensures var c := if GoesRight(v, sub.node) then sub.right else sub.left;
      c.Branch? && Descent(whole, c, path + [c.node], v, y0)
  {
    var m := sub.node;
    var c := if GoesRight(v, m) then sub.right else sub.left;
    ChildLinks(sub);
    var path' := path + [c.node];
    assert SearchPath(sub, v) == [m] + SearchPath(c, v);
    assert path'[..|path'| - 1] == path == path[..|path| - 1] + [m];
    assert Links(whole)[m] == Slots(Top(sub.left), Top(sub.right));
    assert Placed(c, m, |path|, y0 + 100 * (|path| - 1) + 100);
    forall i | 0 <= i < |path'| - 1 ensures LinkStep(path', Links(whole), v, i) {
      if i < |path| - 1 {
        assert LinkStep(path, Links(whole), v, i);
      }
    }
  }

  /** The descent stops where the picked slot is empty: the nodes passed are
      the whole search path. */
  lemma DescentEnd(whole: Tree, sub: Tree, path: seq<Node>, v: int, y0: int)
    requires Descent(whole, sub, path, v, y0)
    requires Chosen(Slots(Top(sub.left), Top(sub.right)), v, sub.node) == null
    ensures path == SearchPath(whole, v)
    ensures sub.node.level == |path| - 1 && sub.node.y == y0 + 100 * (|path| - 1)
  {
    var c := if GoesRight(v, sub.node) then sub.right else sub.left;
    assert c == Nil;
    assert SearchPath(sub, v) == [sub.node];
  }

  /** Hanging `n` turns exactly one empty slot into `n` (the slot the tie-break
      rule picks at the last node of the descent path) and adds `n` with two
      empty slots; every other node's children stay as they were. */
  lemma {:induction false} InsertLinks(t: Tree, n: Node)
    requires Distinct(t) && n !in Elements(t) && t.Branch?
    ensures var p := SearchPath(t, n.value);
      var last := p[|p| - 1];
      p != [] && last in Links(t) &&
      Chosen(Links(t)[last], n.value, last) == null &&
      Links(Insert(t, n)) ==
        Links(t)[last := Fill(Links(t)[last], n.value, last, n)][n := Slots(null, null)]
  {
    var l, m, r := t.left, t.node, t.right;
    LinksDomain(l);
    LinksDomain(r);
    var right := GoesRight(n.value, m);
    var c := if right then r else l;
    var p := SearchPath(t, n.value);
    assert p == [m] + SearchPath(c, n.value);
    var E := Slots(null, null);
    var S := Slots(Top(l), Top(r));
    var A: map<Node, Slots>, B: map<Node, Slots> := Links(l), Links(r);
    assert Insert(t, n) == if right then Branch(l, m, Insert(r, n)) else Branch(Insert(l, n), m, r);
    if c.Nil? {
      assert p == [m];
      InsertLinksHere(t, n);
    } else {
      InsertLinks(c, n);
      var pc := SearchPath(c, n.value);
      var last := pc[|pc| - 1];
      assert p[|p| - 1] == last;
      assert last in Elements(c);
      var F := Fill(Links(c)[last], n.value, last, n);
      assert Links(t)[last] == Links(c)[last];
      assert Links(Insert(c, n)) == Links(c)[last := F][n := E];
      assert Top(Insert(c, n)) == Top(c);
      assert Links(Insert(t, n)) == (A + B)[last := F][n := E][m := S] by {
        if right {
          UpdateUnionRight(A, B, last, F, n, E);
        } else {
          UpdateUnionLeft(B, A, last, F, n, E);
        }
      }
      UpdateCommute(A + B, m, S, last, F, n, E);
    }
  }

  /** The base case of InsertLinks: the picked slot of the top node is the
      empty one. */
  lemma InsertLinksHere(t: Tree, n: Node)
    requires Distinct(t) && n !in Elements(t) && t.Branch?
    requires (if GoesRight(n.value, t.node) then t.right else t.left) == Nil
    ensures t.node in Links(t) && Chosen(Links(t)[t.node], n.value, t.node) == null
    ensures Links(Insert(t, n)) ==
      Links(t)[t.node := Fill(Links(t)[t.node], n.value, t.node, n)][n := Slots(null, null)]
  {
    var l, m, r := t.left, t.node, t.right;
    LinksDomain(l);
    LinksDomain(r);
    var E := Slots(null, null);
    var S := Slots(Top(l), Top(r));
    var A: map<Node, Slots>, B: map<Node, Slots> := Links(l), Links(r);
    assert Links(Branch(Nil, n, Nil)) == map[n := E];
    var F := Fill(S, n.value, m, n);
    assert Links(Insert(t, n)) == (A + B)[m := F][n := E] by {
      if GoesRight(n.value, m) {
        assert F == Slots(Top(l), n);
        assert Links(Insert(t, n)) == (A + map[n := E])[m := F];
      } else {
        assert F == Slots(n, Top(r));
        assert Links(Insert(t, n)) == (map[n := E] + B)[m := F];
      }
    }
    assert (A + B)[m := F] == (A + B)[m := S][m := F];
  }

  /** Updates at distinct keys commute. */
  lemma UpdateCommute(M: map<Node, Slots>, m: Node, s: Slots, x: Node, u: Slots, y: Node, w: Slots)
    requires m != x && m != y
    ensures M[x := u][y := w][m := s] == M[m := s][x := u][y := w]
  {
  }

  /** The new node's parent, level and coordinate, taken from the end of its
      descent path, keep every node placed where it sits. */
  lemma {:induction false} InsertPlaced(t: Tree, parent: Node?, level: nat, y: int, n: Node)
    requires Placed(t, parent, level, y)
    requires var p := SearchPath(t, n.value);
      n.parent == (if p == [] then parent else p[|p| - 1]) &&
      n.level == level + |p| && n.y == y + 100 * |p|
    ensures Placed(Insert(t, n), parent, level, y)
  {
    match t
    case Nil =>
    case Branch(l, m, r) =>
      var c := if GoesRight(n.value, m) then r else l;
      var p := SearchPath(t, n.value);
      assert p == [m] + SearchPath(c, n.value);
      InsertPlaced(c, m, level + 1, y + 100, n);
  }

  // ---------------------------------------------------------------------------
  // In-order sequence

  lemma {:induction false} ValuesOfAppend(a: seq<Node>, b: seq<Node>)
    ensures ValuesOf(a + b) == ValuesOf(a) + ValuesOf(b)
  {
    if a == [] {
      assert a + b == b;
    } else {
      assert (a + b)[1..] == a[1..] + b;
      ValuesOfAppend(a[1..], b);
    }
  }

  lemma {:induction false} ValuesOfAt(s: seq<Node>)
    ensures |ValuesOf(s)| == |s|
    ensures forall i :: 0 <= i < |s| ==> ValuesOf(s)[i] == s[i].value
  {
    if s != [] { ValuesOfAt(s[1..]); }
  }

  /** No node is listed twice. */
  predicate NoRepeats(s: seq<Node>)
  {
    forall i, j :: 0 <= i < j < |s| ==> s[i] != s[j]
  }

  lemma NoRepeatsJoin(a: seq<Node>, m: Node, b: seq<Node>)
    requires NoRepeats(a) && NoRepeats(b)
    requires m !in a && m !in b && forall k :: k in a ==> k !in b
    ensures NoRepeats(a + [m] + b)
  {
    var s := a + [m] + b;
    forall i, j | 0 <= i < j < |s| ensures s[i] != s[j] {
      if j < |a| {
        assert s[i] == a[i] && s[j] == a[j];
      } else if i > |a| {
        assert s[i] == b[i - |a| - 1] && s[j] == b[j - |a| - 1];
      } else if i == |a| {
        assert s[j] == b[j - |a| - 1] && b[j - |a| - 1] in b;
      } else if j == |a| {
        assert s[i] == a[i] && a[i] in a;
      } else {
        assert s[i] == a[i] && s[j] == b[j - |a| - 1] && a[i] in a;
      }
    }
  }

  /** A list without repeats has as many distinct members as entries. */
  lemma {:induction false} NoRepeatsCard(s: seq<Node>)
    requires NoRepeats(s)
    ensures |set m | m in s| == |s|
  {
    if s != [] {
      var rest := s[1..];
      assert NoRepeats(rest) by {
        forall i, j | 0 <= i < j < |rest| ensures rest[i] != rest[j] {
          assert rest[i] == s[i + 1] && rest[j] == s[j + 1];
        }
      }
      NoRepeatsCard(rest);
      assert (set m | m in s) == (set m | m in rest) + {s[0]};
      assert s[0] !in rest by {
        forall j | 0 <= j < |rest| ensures rest[j] != s[0] {
          assert rest[j] == s[j + 1];
        }
      }
    }
  }

  /** The in-order sequence lists exactly the tree's nodes, each once when no
      node is repeated. */
  lemma {:induction false} InOrderElements(t: Tree)
    ensures |InOrder(t)| == Size(t)
    ensures forall k :: k in InOrder(t) ==> k in Elements(t)
    ensures forall k :: k in Elements(t) ==> k in InOrder(t)
    ensures Distinct(t) ==> NoRepeats(InOrder(t))
  {
    match t
    case Nil =>
    case Branch(l, m, r) =>
      InOrderElements(l);
      InOrderElements(r);
      if Distinct(t) {
        forall k | k in InOrder(l) ensures k !in InOrder(r) {
          assert k in Elements(l);
        }
        NoRepeatsJoin(InOrder(l), m, InOrder(r));
      }
  }

  lemma SortedJoin(a: seq<int>, x: int, b: seq<int>)
    requires Sorted(a) && Sorted(b)
    requires forall i :: 0 <= i < |a| ==> a[i] < x
    requires forall j :: 0 <= j < |b| ==> x <= b[j]
    ensures Sorted(a + [x] + b)
  {
    var s := a + [x] + b;
    forall i, j | 0 <= i < j < |s| ensures s[i] <= s[j] {
      if j < |a| {
        assert s[i] == a[i] && s[j] == a[j];
      } else if i > |a| {
        assert s[i] == b[i - |a| - 1] && s[j] == b[j - |a| - 1];
      } else if i < |a| && j > |a| {
        assert s[i] == a[i] && s[j] == b[j - |a| - 1];
      }
    }
  }

  /** Every key in the in-order keys of `t` belongs to a node of `t`. */
  lemma InOrderValuesFrom(t: Tree)
    ensures forall i :: 0 <= i < |ValuesOf(InOrder(t))| ==>
      exists k :: k in Elements(t) && k.value == ValuesOf(InOrder(t))[i]
  {
    InOrderElements(t);
    ValuesOfAt(InOrder(t));
    forall i | 0 <= i < |ValuesOf(InOrder(t))|
      ensures exists k :: k in Elements(t) && k.value == ValuesOf(InOrder(t))[i]
    {
      assert InOrder(t)[i] in InOrder(t);
    }
  }

  /** In an ordered tree the in-order keys are non-decreasing. */
  lemma {:induction false} InOrderSorted(t: Tree)
    requires Ordered(t)
    ensures Sorted(ValuesOf(InOrder(t)))
  {
    match t
    case Nil =>
    case Branch(l, m, r) =>
      InOrderSorted(l);
      InOrderSorted(r);
      InOrderValuesFrom(l);
      InOrderValuesFrom(r);
      var a, b := InOrder(l), InOrder(r);
      ValuesOfAppend(a + [m], b);
      ValuesOfAppend(a, [m]);
      assert ValuesOf([m]) == [m.value];
      SortedJoin(ValuesOf(a), m.value, ValuesOf(b));
  }

  /** The in-order keys of a branch, counted. */
  lemma BranchValues(l: Tree, m: Node, r: Tree)
    ensures multiset(ValuesOf(InOrder(Branch(l, m, r)))) ==
      multiset(ValuesOf(InOrder(l))) + multiset{m.value} + multiset(ValuesOf(InOrder(r)))
  {
    ValuesOfAppend(InOrder(l) + [m], InOrder(r));
    ValuesOfAppend(InOrder(l), [m]);
    assert ValuesOf([m]) == [m.value];
  }

  /** Growing the two subtrees' keys by `k` grows the branch's keys by `k`. */
  lemma BranchGrows(l: Tree, m: Node, r: Tree, l': Tree, r': Tree, k: int)
    requires multiset(ValuesOf(InOrder(l'))) + multiset(ValuesOf(InOrder(r'))) ==
      multiset(ValuesOf(InOrder(l))) + multiset(ValuesOf(InOrder(r))) + multiset{k}
    ensures multiset(ValuesOf(InOrder(Branch(l', m, r')))) ==
      multiset(ValuesOf(InOrder(Branch(l, m, r)))) + multiset{k}
  {
    BranchValues(l, m, r);
    BranchValues(l', m, r');
    Regroup(multiset(ValuesOf(InOrder(l))), multiset(ValuesOf(InOrder(r))),
      multiset(ValuesOf(InOrder(l'))), multiset(ValuesOf(InOrder(r'))), m.value, k);
  }

  lemma Regroup(a: multiset<int>, b: multiset<int>, a': multiset<int>, b': multiset<int>, x: int, k: int)
    requires a' + b' == a + b + multiset{k}
    ensures a' + multiset{x} + b' == a + multiset{x} + b + multiset{k}
  {
    assert a' + multiset{x} + b' == (a' + b') + multiset{x};
  }

  /** Insertion adds the new key to the in-order keys and nothing else. */
  lemma {:induction false} InsertValues(t: Tree, n: Node)
    ensures multiset(ValuesOf(InOrder(Insert(t, n)))) == multiset(ValuesOf(InOrder(t))) + multiset{n.value}
  {
    match t
    case Nil =>
      BranchValues(Nil, n, Nil);
    case Branch(l, m, r) =>
      if GoesRight(n.value, m) {
        InsertValues(r, n);
        BranchGrows(l, m, r, l, Insert(r, n), n.value);
      } else {
        InsertValues(l, n);
        BranchGrows(l, m, r, Insert(l, n), r, n.value);
      }
  }
}
