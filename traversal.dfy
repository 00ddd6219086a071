/**
 * The traversal that `backward` uses to decide in which order the nodes'
 * rules run: a depth-first walk from the root over `prev`, recording each
 * node the first time it is met (pre-order). Because `prev` is a set, the
 * order in which a node's operands are walked is not fixed; the walk here
 * picks them nondeterministically.
 *
 * A pre-order walk is a topological order of the graph only when no node is
 * shared; `BuildPostOrder` is the walk that records a node after its
 * operands, whose reverse is a topological order of every acyclic graph.
 */
module Traversal {
  import opened Nodes

  /** The entries of a sequence, as a set. */
  function Elems(o: seq<nat>): set<nat>
  {
    set x | x in o
  }

  /** No entry appears twice. */
  predicate NoDup(o: seq<nat>)
  {
    forall i, j :: 0 <= i < j < |o| ==> o[i] != o[j]
  }

  /** Every entry after position lo is an operand of an entry recorded before it, at or after lo. */
  ghost predicate PreorderFrom(nodes: seq<Node>, o: seq<nat>, lo: nat)
  {
    forall k :: lo < k < |o| ==> exists j :: lo <= j < k && IsChild(nodes, o[j], o[k])
  }

  /**
   * The entry at j starts a block of the order holding exactly the nodes of
   * its reach not recorded before it: the walk, once it records a node,
   * records everything it reaches from there before it returns.
   */
  ghost predicate SubtreeAt(nodes: seq<Node>, o: seq<nat>, j: nat)
  {
    WellFormed(nodes) && j < |o| && o[j] < |nodes| &&
    exists e :: j < e <= |o| && Elems(o[j..e]) == Reach(nodes, o[j]) - Elems(o[..j])
  }

  /** Every entry at or after lo starts such a block. */
  ghost predicate DepthFirstFrom(nodes: seq<Node>, o: seq<nat>, lo: nat)
  {
    forall j :: lo <= j < |o| ==> SubtreeAt(nodes, o, j)
  }

  /**
   * What the depth-first pre-order walk from `root` records: every reachable
   * node exactly once, nothing else, the root first, every other node after
   * some node whose `prev` holds it, and each node followed at once by the
   * nodes it reaches that were not recorded before it.
   */
  ghost predicate DfsOrder(nodes: seq<Node>, root: nat, o: seq<nat>)
  {
    WellFormed(nodes) && root < |nodes| &&
    |o| > 0 && o[0] == root && NoDup(o) &&
    Elems(o) == Reach(nodes, root) &&
    PreorderFrom(nodes, o, 0) && DepthFirstFrom(nodes, o, 0)
  }

  /** Every node appears before all of its operands (its rule runs after all its users'). */
  ghost predicate Topological(nodes: seq<Node>, o: seq<nat>)
  {
    forall i, j :: 0 <= i < |o| && 0 <= j < |o| && IsChild(nodes, o[i], o[j]) ==> i < j
  }

  /** No node reachable from `root` is an operand of two different reachable nodes. */
  ghost predicate TreeShaped(nodes: seq<Node>, root: nat)
    requires WellFormed(nodes) && root < |nodes|
  {
    forall p, q, c ::
      (p in Reach(nodes, root) && q in Reach(nodes, root) && IsChild(nodes, p, c) && IsChild(nodes, q, c))
      ==> p == q
  }

  /** The invariant of the walk's visited set: every visited node below `bound` has its whole reach visited. */
  ghost predicate ClosedBelow(nodes: seq<Node>, visited: set<nat>, bound: nat)
    requires WellFormed(nodes)
  {
    forall x :: x in visited && x < bound ==> x < |nodes| && Reach(nodes, x) <= visited
  }

  lemma PreorderStep(nodes: seq<Node>, o: seq<nat>, o': seq<nat>, lo: nat, c: nat, grew: bool)
    requires lo < |o| <= |o'| && o'[..|o|] == o
    requires PreorderFrom(nodes, o, lo)
    requires PreorderFrom(nodes, o', |o|)
    requires grew ==> |o'| > |o| && o'[|o|] == c && IsChild(nodes, o[lo], c)
    requires !grew ==> o' == o
    ensures PreorderFrom(nodes, o', lo)
  {
    forall k | lo < k < |o'|
      ensures exists j :: lo <= j < k && IsChild(nodes, o'[j], o'[k])
    {
      if k < |o| {
        var j :| lo <= j < k && IsChild(nodes, o[j], o[k]);
        assert o'[j] == o[j] && o'[k] == o[k];
      } else if k == |o| {
        assert o'[lo] == o[lo];
      } else {
        var j :| |o| <= j < k && IsChild(nodes, o'[j], o'[k]);
      }
    }
  }

  /** Appending to an order keeps the blocks that already closed in it. */
  lemma DepthFirstStep(nodes: seq<Node>, o: seq<nat>, o': seq<nat>, lo: nat)
    requires |o| <= |o'| && o'[..|o|] == o
    requires DepthFirstFrom(nodes, o, lo) && DepthFirstFrom(nodes, o', |o|)
    ensures DepthFirstFrom(nodes, o', lo)
  {
    forall j | lo <= j < |o| ensures SubtreeAt(nodes, o', j) {
      assert SubtreeAt(nodes, o, j);
      var e :| j < e <= |o| && Elems(o[j..e]) == Reach(nodes, o[j]) - Elems(o[..j]);
      SamePrefix(o, o');
      assert o'[j..e] == o[j..e] && o'[..j] == o[..j];
    }
  }

  /** An extension agrees with the sequence it extends. */
  lemma SamePrefix(o: seq<nat>, o': seq<nat>)
    requires |o| <= |o'| && o'[..|o|] == o
    ensures forall i :: 0 <= i < |o| ==> o'[i] == o[i]
  {
    forall i | 0 <= i < |o| ensures o'[i] == o[i] {
      assert o'[..|o|][i] == o'[i];
    }
  }

  /** A node recorded at the end of o, followed by exactly the rest of its reach, closes its block. */
  lemma CloseSubtree(nodes: seq<Node>, o: seq<nat>, o': seq<nat>, node: nat)
    requires WellFormed(nodes) && node < |nodes| && |o| < |o'| && o'[..|o|] == o && o'[|o|] == node
    requires NoDup(o') && Elems(o') == Elems(o) + Reach(nodes, node)
    requires DepthFirstFrom(nodes, o', |o| + 1)
    ensures DepthFirstFrom(nodes, o', |o|)
  {
    AppendedElems(o, o');
    assert o'[|o|..|o'|] == o'[|o|..];
    assert SubtreeAt(nodes, o', |o|);
  }

  /** What a walk appended to an order without repeats is the set it added. */
  lemma AppendedElems(o: seq<nat>, o': seq<nat>)
    requires |o| <= |o'| && o'[..|o|] == o && NoDup(o')
    ensures Elems(o'[|o|..]) == Elems(o') - Elems(o)
  {
    assert o' == o + o'[|o|..];
    forall x | x in Elems(o'[|o|..]) ensures x !in Elems(o) {
      var k :| 0 <= k < |o'| - |o| && o'[|o|..][k] == x;
    }
  }

  /**
   * `build_order_dfs(node)`: when `node` is not yet visited, record and mark
   * it, then walk each of its operands in turn. The caller's list and set are
   * threaded through as `order` and `visited`.
   */
  method BuildOrderDfs(nodes: seq<Node>, node: nat, order: seq<nat>, visited: set<nat>)
    returns (order': seq<nat>, visited': set<nat>)
    requires WellFormed(nodes) && node < |nodes|
    requires visited == Elems(order) && NoDup(order)
    requires forall x :: x in visited ==> x < |nodes|
    requires ClosedBelow(nodes, visited, node + 1)
    ensures visited' == visited + Reach(nodes, node)
    ensures visited' == Elems(order') && NoDup(order')
    ensures |order'| >= |order| && order'[..|order|] == order
    ensures node in visited ==> order' == order
    ensures node !in visited ==> |order'| > |order| && order'[|order|] == node
    ensures PreorderFrom(nodes, order', |order|) && DepthFirstFrom(nodes, order', |order|)
    decreases node
  {
    if node in visited {
      return order, visited;
    }
    order' := order + [node];
    visited' := visited + {node};
    var rest := Prev(nodes[node].op);
    while rest != {}
      invariant rest <= Prev(nodes[node].op)
      invariant visited' == Elems(order') && NoDup(order')
      invariant |order'| > |order| && order'[..|order|] == order && order'[|order|] == node
      invariant visited + {node} <= visited' <= visited + Reach(nodes, node)
      invariant forall c :: c in Prev(nodes[node].op) && c !in rest ==> Reach(nodes, c) <= visited'
      invariant forall x :: x in visited' ==> x < |nodes|
      invariant ClosedBelow(nodes, visited', node)
      invariant PreorderFrom(nodes, order', |order|)
      invariant DepthFirstFrom(nodes, order', |order| + 1)
      decreases rest
    {
      var c :| c in rest;
      rest := rest - {c};
      ReachChild(nodes, node, c);
      ghost var before, vBefore := order', visited';
      order', visited' := BuildOrderDfs(nodes, c, order', visited');
      PreorderStep(nodes, before, order', |order|, c, c !in before);
      DepthFirstStep(nodes, before, order', |order| + 1);
      ClosedAfterWalk(nodes, vBefore, visited', c, node);
    }
    WalkedAll(nodes, node, visited, visited');
    CloseSubtree(nodes, order, order', node);
  }

  /** Adding everything c reaches keeps a visited set closed below a bound. */
  lemma ClosedAfterWalk(nodes: seq<Node>, v: set<nat>, v': set<nat>, c: nat, bound: nat)
    requires WellFormed(nodes) && c < |nodes|
    requires ClosedBelow(nodes, v, bound) && v' == v + Reach(nodes, c)
    ensures ClosedBelow(nodes, v', bound)
  {
    forall x | x in v' && x < bound
      ensures x < |nodes| && Reach(nodes, x) <= v'
    {
      if x in Reach(nodes, c) { ReachTransitive(nodes, c, x); }
    }
  }

  /** Once node and everything each of its operands reaches are visited, its whole reach is. */
  lemma WalkedAll(nodes: seq<Node>, node: nat, v: set<nat>, v': set<nat>)
    requires WellFormed(nodes) && node < |nodes|
    requires v + {node} <= v' <= v + Reach(nodes, node)
    requires forall c :: c in Prev(nodes[node].op) ==> Reach(nodes, c) <= v'
    ensures v' == v + Reach(nodes, node)
  {
  }

  /** Every node the walk records has all of its operands recorded before it. */
  ghost predicate PostOrdered(nodes: seq<Node>, o: seq<nat>)
  {
    forall i, j :: 0 <= i < |o| && 0 <= j < |o| && IsChild(nodes, o[i], o[j]) ==> j < i
  }

  /** Every recorded node's operands are recorded too. */
  ghost predicate OperandsRecorded(nodes: seq<Node>, o: seq<nat>)
  {
    forall i :: 0 <= i < |o| ==> o[i] < |nodes| && Prev(nodes[o[i]].op) <= Elems(o)
  }

  /** Appending a node whose operands are all recorded, and that is not recorded yet, keeps a post-order. */
  lemma AppendPost(nodes: seq<Node>, o: seq<nat>, node: nat)
    requires node < |nodes| && node !in Elems(o) && Prev(nodes[node].op) <= Elems(o)
    requires NoDup(o) && PostOrdered(nodes, o) && OperandsRecorded(nodes, o)
    ensures Elems(o + [node]) == Elems(o) + {node}
    ensures NoDup(o + [node]) && PostOrdered(nodes, o + [node]) && OperandsRecorded(nodes, o + [node])
  {
    var o' := o + [node];
    assert forall i :: 0 <= i < |o| ==> o'[i] == o[i] && o[i] in Elems(o);
    forall i, j | 0 <= i < |o'| && 0 <= j < |o'| && IsChild(nodes, o'[i], o'[j])
      ensures j < i
    {
      if i < |o| && j == |o| {
        assert false;
      }
    }
  }

  /**
   * The walk that records a node after its operands: mark `node`, walk each
   * operand, then append `node`.
   */
  method BuildPostOrder(nodes: seq<Node>, node: nat, order: seq<nat>, visited: set<nat>)
    returns (order': seq<nat>, visited': set<nat>)
    requires WellFormed(nodes) && node < |nodes|
    requires Elems(order) <= visited && NoDup(order)
    requires forall x :: x in visited ==> x < |nodes|
    requires forall x :: x in visited && x <= node ==> Reach(nodes, x) <= Elems(order)
    requires PostOrdered(nodes, order) && OperandsRecorded(nodes, order)
    ensures visited' == visited + Reach(nodes, node)
    ensures Elems(order') == Elems(order) + Reach(nodes, node)
    ensures NoDup(order') && PostOrdered(nodes, order') && OperandsRecorded(nodes, order')
    decreases node
  {
    if node in visited {
      return order, visited;
    }
    order', visited' := order, visited + {node};
    var rest := Prev(nodes[node].op);
    while rest != {}
      invariant rest <= Prev(nodes[node].op)
      invariant Elems(order') <= visited' && NoDup(order')
      invariant visited + {node} <= visited' <= visited + Reach(nodes, node)
      invariant Elems(order) <= Elems(order') <= Elems(order) + (Reach(nodes, node) - {node})
      invariant forall c :: c in Prev(nodes[node].op) && c !in rest ==> Reach(nodes, c) <= Elems(order')
      invariant forall x :: x in visited' ==> x < |nodes|
      invariant forall x :: x in visited' && x < node ==> Reach(nodes, x) <= Elems(order')
      invariant PostOrdered(nodes, order') && OperandsRecorded(nodes, order')
      decreases rest
    {
      var c :| c in rest;
      rest := rest - {c};
      ReachChild(nodes, node, c);
      order', visited' := BuildPostOrder(nodes, c, order', visited');
      forall x | x in visited' && x < node
        ensures Reach(nodes, x) <= Elems(order')
      {
        if x in Reach(nodes, c) { ReachTransitive(nodes, c, x); }
      }
    }
    AppendPost(nodes, order', node);
    order' := order' + [node];
  }

  /** The sequence read back to front, as Python's `reversed`. */
  function Reversed(o: seq<nat>): (r: seq<nat>)
    ensures |r| == |o|
    ensures forall i :: 0 <= i < |o| ==> r[i] == o[|o| - 1 - i]
  {
    if o == [] then [] else Reversed(o[1..]) + [o[0]]
  }

  /** Reading a post-order backwards gives a topological order with the same entries. */
  lemma ReversedPostOrder(nodes: seq<Node>, o: seq<nat>)
    requires PostOrdered(nodes, o) && NoDup(o)
    ensures Topological(nodes, Reversed(o)) && NoDup(Reversed(o)) && Elems(Reversed(o)) == Elems(o)
  {
    var r := Reversed(o);
    var n := |o|;
    forall i, j | 0 <= i < n && 0 <= j < n && IsChild(nodes, r[i], r[j])
      ensures i < j
    {
      assert IsChild(nodes, o[n - 1 - i], o[n - 1 - j]);
    }
    forall x | x in Elems(o) ensures x in Elems(r) {
      var k :| 0 <= k < n && o[k] == x;
      assert r[n - 1 - k] == x;
    }
  }

  /**
   * The pre-order walk is topological when no node is shared: a node's only
   * user is the node that led the walk to it.
   */
  lemma TreeOrderTopological(nodes: seq<Node>, root: nat, o: seq<nat>)
    requires DfsOrder(nodes, root, o) && TreeShaped(nodes, root)
    ensures Topological(nodes, o)
  {
    forall i, j | 0 <= i < |o| && 0 <= j < |o| && IsChild(nodes, o[i], o[j])
      ensures i < j
    {
      assert o[i] in Elems(o) && o[j] in Elems(o);
      if j == 0 {
        ReachChild(nodes, o[i], o[j]);
        assert false;
      }
      var k :| 0 <= k < j && IsChild(nodes, o[k], o[j]);
      assert o[k] in Elems(o);
      assert o[k] == o[i];
    }
  }
}
