/** The record trace of the in-order walk: a `Forward` record before a node's
    subtree, a `Value` record where the node is emitted in sorted order, a
    `Backward` record after its subtree. The root of the walk gets no
    `Forward` or `Backward` record. */
module Traversal {
  import opened Nodes
  import opened TreeShape
  import opened Wrappers

  datatype Record = Forward(node: Node) | Value(node: Node) | Backward(node: Node)

  /** The records the walk of `t` emits when `root` is the tree's root. */
  function Trace(t: Tree, root: Node?): seq<Record>
  {
    match t
    case Nil => []
    case Branch(l, m, r) =>
      (if m != root then [Forward(m)] else []) +
      Trace(l, root) + [Value(m)] + Trace(r, root) +
      (if m != root then [Backward(m)] else [])
  }

  /** The walk of a non-empty tree, appended to `acc`, piece by piece. */
  lemma TraceAfter(t: Tree, root: Node?, acc: seq<Record>)
    requires t.Branch?
    ensures var f: seq<Record> := if t.node != root then [Forward(t.node)] else [];
      var b: seq<Record> := if t.node != root then [Backward(t.node)] else [];
      acc + Trace(t, root) == acc + f + Trace(t.left, root) + [Value(t.node)] + Trace(t.right, root) + b
  {
  }

  /** The nodes of the `Value` records, in order. */
  function Visits(s: seq<Record>): seq<Node>
  {
    if s == [] then []
    else (if s[0].Value? then [s[0].node] else []) + Visits(s[1..])
  }

  /** Reads `s` as brackets: `Forward(m)` opens `m`, `Backward(m)` must close
      the most recently opened node that is still open. Returns the nodes
      still open at the end (innermost last), or None on a mismatch. */
  function Scan(s: seq<Record>, open: seq<Node>): Option<seq<Node>>
  {
    if s == [] then Some(open)
    else
      match s[0]
      case Forward(m) => Scan(s[1..], open + [m])
      case Value(_) => Scan(s[1..], open)
      case Backward(m) =>
        if open != [] && open[|open| - 1] == m then Scan(s[1..], open[..|open| - 1]) else None
  }

  /** `s` nests properly: every `Backward` closes the matching open `Forward`
      and nothing is left open. */
  predicate Nested(s: seq<Record>)
  {
    Scan(s, []) == Some([])
  }

  /** `s` holds `inner` as one contiguous stretch. */
  predicate Contains(s: seq<Record>, inner: seq<Record>)
  {
    exists i :: 0 <= i <= |s| && |inner| <= |s| - i && s[i..][..|inner|] == inner
  }

  /** `s` is one of the subtrees of `t` (`t` included). */
  predicate IsSubtree(s: Tree, t: Tree)
  {
    s == t || (t.Branch? && (IsSubtree(s, t.left) || IsSubtree(s, t.right)))
  }

  // ---------------------------------------------------------------------------

  lemma {:induction false} VisitsAppend(a: seq<Record>, b: seq<Record>)
    ensures Visits(a + b) == Visits(a) + Visits(b)
  {
    if a == [] {
      assert a + b == b;
    } else {
      assert (a + b)[1..] == a[1..] + b;
      VisitsAppend(a[1..], b);
    }
  }

  lemma VisitsOne(r: Record)
    ensures Visits([r]) == if r.Value? then [r.node] else []
  {
    assert [r][1..] == [];
  }

  /** The `Value` records of the walk list the nodes in in-order. */
  lemma {:induction false} TraceVisits(t: Tree, root: Node?)
    ensures Visits(Trace(t, root)) == InOrder(t)
  {
    match t
    case Nil =>
    case Branch(l, m, r) =>
      var f: seq<Record> := if m != root then [Forward(m)] else [];
      var b: seq<Record> := if m != root then [Backward(m)] else [];
      var p1 := f + Trace(l, root);
      var p2 := p1 + [Value(m)];
      var p3 := p2 + Trace(r, root);
      assert Visits(f) == [] && Visits(b) == [] by {
        if m != root {
          VisitsOne(Forward(m));
          VisitsOne(Backward(m));
        }
      }
      assert Visits(p1) == InOrder(l) by {
        VisitsAppend(f, Trace(l, root));
        TraceVisits(l, root);
      }
      assert Visits(p2) == InOrder(l) + [m] by {
        VisitsAppend(p1, [Value(m)]);
        VisitsOne(Value(m));
      }
      assert Visits(p3) == InOrder(l) + [m] + InOrder(r) by {
        VisitsAppend(p2, Trace(r, root));
        TraceVisits(r, root);
      }
      assert Visits(p3 + b) == Visits(p3) by {
        VisitsAppend(p3, b);
      }
      assert Trace(t, root) == p3 + b;
  }

  /** Three records per node, less the two the root does not get. */
  lemma {:induction false} TraceLength(t: Tree, root: Node?)
    requires Distinct(t)
    ensures |Trace(t, root)| == 3 * Size(t) - (if root in Elements(t) then 2 else 0)
  {
    match t
    case Nil =>
    case Branch(l, m, r) =>
      TraceLength(l, root);
      TraceLength(r, root);
  }

  /** Exactly the nodes other than the root get `Forward` and `Backward`
      records; every node gets a `Value` record. */
  lemma TraceRecords(t: Tree, root: Node?)
    ensures forall k :: Forward(k) in Trace(t, root) <==> k in Elements(t) && k != root
    ensures forall k :: Backward(k) in Trace(t, root) <==> k in Elements(t) && k != root
    ensures forall k :: Value(k) in Trace(t, root) <==> k in Elements(t)
  {
    TraceForwards(t, root);
    TraceBackwards(t, root);
    TraceValues(t, root);
  }

  lemma {:induction false} TraceForwards(t: Tree, root: Node?)
    ensures forall k :: Forward(k) in Trace(t, root) <==> k in Elements(t) && k != root
  {
    match t
    case Nil =>
    case Branch(l, m, r) =>
      TraceForwards(l, root);
      TraceForwards(r, root);
  }

  lemma {:induction false} TraceBackwards(t: Tree, root: Node?)
    ensures forall k :: Backward(k) in Trace(t, root) <==> k in Elements(t) && k != root
  {
    match t
    case Nil =>
    case Branch(l, m, r) =>
      TraceBackwards(l, root);
      TraceBackwards(r, root);
  }

  lemma {:induction false} TraceValues(t: Tree, root: Node?)
    ensures forall k :: Value(k) in Trace(t, root) <==> k in Elements(t)
  {
    match t
    case Nil =>
    case Branch(l, m, r) =>
      TraceValues(l, root);
      TraceValues(r, root);
  }

  lemma {:induction false} ScanAppend(a: seq<Record>, b: seq<Record>, open: seq<Node>)
    ensures Scan(a + b, open) ==
      match Scan(a, open)
      case None => None
      case Some(mid) => Scan(b, mid)
  {
    if a == [] {
      assert a + b == b;
    } else {
      assert (a + b)[1..] == a[1..] + b;
      assert (a + b)[0] == a[0];
      match a[0]
      case Forward(m) => ScanAppend(a[1..], b, open + [m]);
      case Value(_) => ScanAppend(a[1..], b, open);
      case Backward(m) =>
        if open != [] && open[|open| - 1] == m {
          ScanAppend(a[1..], b, open[..|open| - 1]);
        }
    }
  }

  lemma ScanSingle(r: Record, open: seq<Node>)
    ensures r.Forward? ==> Scan([r], open) == Some(open + [r.node])
    ensures r.Value? ==> Scan([r], open) == Some(open)
    ensures r.Backward? ==> Scan([r], open + [r.node]) == Some(open)
  {
    assert [r][1..] == [];
    assert (open + [r.node])[..|open|] == open;
  }

  /** The walk of a subtree opens and closes brackets in matching pairs, so it
      leaves whatever is open around it untouched. */
  lemma {:induction false} TraceBalanced(t: Tree, root: Node?, open: seq<Node>)
    ensures Scan(Trace(t, root), open) == Some(open)
  {
    match t
    case Nil =>
    case Branch(l, m, r) =>
      var inner := if m != root then open + [m] else open;
      var f: seq<Record> := if m != root then [Forward(m)] else [];
      var b: seq<Record> := if m != root then [Backward(m)] else [];
      var p1 := f + Trace(l, root);
      var p2 := p1 + [Value(m)];
      var p3 := p2 + Trace(r, root);
      assert Scan(f, open) == Some(inner) by {
        ScanSingle(Forward(m), open);
      }
      assert Scan(p1, open) == Some(inner) by {
        ScanAppend(f, Trace(l, root), open);
        TraceBalanced(l, root, inner);
      }
      assert Scan(p2, open) == Some(inner) by {
        ScanAppend(p1, [Value(m)], open);
        ScanSingle(Value(m), inner);
      }
      assert Scan(p3, open) == Some(inner) by {
        ScanAppend(p2, Trace(r, root), open);
        TraceBalanced(r, root, inner);
      }
      assert Scan(p3 + b, open) == Some(open) by {
        ScanAppend(p3, b, open);
        ScanSingle(Backward(m), open);
      }
      assert Trace(t, root) == p3 + b;
  }

  /** The whole walk nests properly. */
  lemma TraceNested(t: Tree, root: Node?)
    ensures Nested(Trace(t, root))
  {
    TraceBalanced(t, root, []);
  }

  lemma ContainsWithin(s: seq<Record>, inner: seq<Record>, before: seq<Record>, after: seq<Record>)
    requires Contains(s, inner)
    ensures Contains(before + s + after, inner)
  {
    var i :| 0 <= i <= |s| && |inner| <= |s| - i && s[i..][..|inner|] == inner;
    var whole := before + s + after;
    assert whole[|before| + i..] == s[i..] + after;
    assert (s[i..] + after)[..|inner|] == s[i..][..|inner|];
  }

  /** The walk of a node other than the root opens with that node's `Forward`
      record and closes with its `Backward` record. */
  lemma TraceBracketed(t: Tree, root: Node?)
    requires t.Branch? && t.node != root
    ensures |Trace(t, root)| >= 2
    ensures Trace(t, root)[0] == Forward(t.node)
    ensures Trace(t, root)[|Trace(t, root)| - 1] == Backward(t.node)
  {
  }

  /** The walk of each subtree appears in the walk of the whole tree as one
      contiguous stretch; with TraceBracketed, every record of a subtree below
      the root lies between its top's `Forward` and `Backward` records. */
  lemma {:induction false} SubtreeStretch(s: Tree, t: Tree, root: Node?)
    requires IsSubtree(s, t)
    ensures Contains(Trace(t, root), Trace(s, root))
  {
    var w := Trace(s, root);
    if s == t {
      assert Trace(t, root)[0..][..|w|] == w;
    } else {
      var m := t.node;
      var f: seq<Record> := if m != root then [Forward(m)] else [];
      var b: seq<Record> := if m != root then [Backward(m)] else [];
      if IsSubtree(s, t.left) {
        SubtreeStretch(s, t.left, root);
        var after := [Value(m)] + Trace(t.right, root) + b;
        ContainsWithin(Trace(t.left, root), w, f, after);
        assert Trace(t, root) == f + Trace(t.left, root) + after;
      } else {
        SubtreeStretch(s, t.right, root);
        ContainsWithin(Trace(t.right, root), w, f + Trace(t.left, root) + [Value(m)], b);
      }
    }
  }
}
