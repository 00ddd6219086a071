/**
 * Small graphs built through the `Value` operations and differentiated with
 * `backward`, with the data and gradients the engine is documented to
 * produce, and the graph with a shared node on which the pre-order walk
 * goes wrong.
 */
module Scenarios {
  import opened Nodes
  import opened Traversal
  import opened Propagation
  import opened Calculus
  import opened Engine

  /** A graph in which every node c has at most the one user parent[c] shares no node. */
  lemma ParentsTree(nodes: seq<Node>, root: nat, parent: seq<nat>)
    requires WellFormed(nodes) && root < |nodes| && |parent| == |nodes|
    requires forall p: nat, c: nat :: p < |nodes| && IsChild(nodes, p, c) ==> c < |parent| && parent[c] == p
    ensures TreeShaped(nodes, root)
  {
  }

  /** The nodes of a + b with a = 2, b = 3, and their derivatives. */
  lemma SumGraph(nodes: seq<Node>)
    requires nodes == [Node(2.0, Leaf), Node(3.0, Leaf), Node(5.0, Plus(0, 1))]
    ensures WellFormed(nodes) && PowFreeReach(nodes, 2) && TreeShaped(nodes, 2)
    ensures Reach(nodes, 2) == {0, 1, 2}
    ensures Derivative(nodes, 2, 0) == 1.0 && Derivative(nodes, 2, 1) == 1.0 && Derivative(nodes, 2, 2) == 1.0
  {
    assert Reach(nodes, 2) == {0, 1, 2};
    ParentsTree(nodes, 2, [2, 2, 2]);
  }

  /** `a + b` with a = 2, b = 3: data 5, and both grads 1 after `backward`. */
  method AddGrads() returns (data: real, ga: real, gb: real)
    ensures data == 5.0 && ga == 1.0 && gb == 1.0
  {
    var g := new Graph();
    var a := g.NewValue(2.0, Leaf);
    var b := g.NewValue(3.0, Leaf);
    var c := g.Add(a, Ref(b));
    SumGraph(g.nodes);
    assert g.grad == Zeros(3);
    var ok;
    ghost var order;
    ok, order := g.Backward(c);
    data, ga, gb := g.nodes[c].data, g.grad[a], g.grad[b];
  }

  /** `a * b` with a = 2, b = 3: data 6, a's grad is b's data and b's grad is a's data. */
  method MulGrads() returns (data: real, ga: real, gb: real)
    ensures data == 6.0 && ga == 3.0 && gb == 2.0
  {
    var g := new Graph();
    var a := g.NewValue(2.0, Leaf);
    var b := g.NewValue(3.0, Leaf);
    var c := g.Mul(a, Ref(b));
    assert g.nodes == [Node(2.0, Leaf), Node(3.0, Leaf), Node(6.0, Times(0, 1))];
    assert Reach(g.nodes, c) == {0, 1, 2};
    ParentsTree(g.nodes, c, [2, 2, 2]);
    assert g.grad == Zeros(3);
    var ok;
    ghost var order;
    ok, order := g.Backward(c);
    data, ga, gb := g.nodes[c].data, g.grad[a], g.grad[b];
  }

  /** `a + a`: the one operand receives the root's grad twice. */
  method SelfAddGrads(x: real) returns (data: real, ga: real)
    ensures data == x + x && ga == 2.0
  {
    var g := new Graph();
    var a := g.NewValue(x, Leaf);
    var c := g.Add(a, Ref(a));
    assert g.nodes == [Node(x, Leaf), Node(x + x, Plus(0, 0))];
    assert Reach(g.nodes, c) == {0, 1};
    ParentsTree(g.nodes, c, [1, 1]);
    assert g.grad == Zeros(2);
    var ok;
    ghost var order;
    ok, order := g.Backward(c);
    data, ga := g.nodes[c].data, g.grad[a];
  }

  /** `a.relu()`: data max(a, 0); a's grad is 1 for a positive input and 0 otherwise (0 included). */
  method ReluGrads(x: real) returns (data: real, ga: real)
    ensures data == (if x < 0.0 then 0.0 else x)
    ensures ga == (if x > 0.0 then 1.0 else 0.0)
  {
    var g := new Graph();
    var a := g.NewValue(x, Leaf);
    var r := g.Relu(a);
    assert Reach(g.nodes, r) == {0, 1};
    ParentsTree(g.nodes, r, [1, 1]);
    assert g.grad == Zeros(2);
    var ok;
    ghost var order;
    ok, order := g.Backward(r);
    data, ga := g.nodes[r].data, g.grad[a];
  }

  /** `-a`: data -a and grad -1. */
  method NegGrads(x: real) returns (data: real, ga: real)
    ensures data == -x && ga == -1.0
  {
    var g := new Graph();
    var a := g.NewValue(x, Leaf);
    var n := g.Neg(a);
    assert g.nodes == [Node(x, Leaf), Node(-1.0, Leaf), Node(x * -1.0, Times(0, 1))];
    assert Reach(g.nodes, n) == {0, 1, 2};
    ParentsTree(g.nodes, n, [2, 2, 2]);
    assert g.grad == Zeros(3);
    var ok;
    ghost var order;
    ok, order := g.Backward(n);
    data, ga := g.nodes[n].data, g.grad[a];
  }

  /** The nodes of a - b, that is a + b * -1, and their derivatives. */
  lemma DiffGraph(nodes: seq<Node>, x: real, y: real)
    requires nodes == [Node(x, Leaf), Node(y, Leaf), Node(-1.0, Leaf), Node(y * -1.0, Times(1, 2)),
                       Node(x + y * -1.0, Plus(0, 3))]
    ensures WellFormed(nodes) && PowFreeReach(nodes, 4) && TreeShaped(nodes, 4)
    ensures Derivative(nodes, 4, 0) == 1.0 && Derivative(nodes, 4, 1) == -1.0
  {
    assert Reach(nodes, 3) == {1, 2, 3};
    assert Reach(nodes, 4) == {0, 1, 2, 3, 4};
    ParentsTree(nodes, 4, [4, 3, 3, 4, 4]);
  }

  /** `a - b`: data a - b; a's grad 1 and b's grad -1. */
  method SubGrads(x: real, y: real) returns (data: real, ga: real, gb: real)
    ensures data == x - y && ga == 1.0 && gb == -1.0
  {
    var g := new Graph();
    var a := g.NewValue(x, Leaf);
    var b := g.NewValue(y, Leaf);
    var s := g.Sub(a, Ref(b));
    assert g.nodes == [Node(x, Leaf), Node(y, Leaf), Node(-1.0, Leaf), Node(y * -1.0, Times(1, 2)),
                       Node(x + y * -1.0, Plus(0, 3))];
    DiffGraph(g.nodes, x, y);
    assert g.grad == Zeros(5);
    var ok;
    ghost var order;
    ok, order := g.Backward(s);
    data, ga, gb := g.nodes[s].data, g.grad[a], g.grad[b];
  }

  /** The nodes of L = (a * b + c) * f with a = 2, b = -3, c = 10, f = -2, and their derivatives. */
  lemma CompositeGraph(nodes: seq<Node>)
    requires nodes == [Node(2.0, Leaf), Node(-3.0, Leaf), Node(-6.0, Times(0, 1)), Node(10.0, Leaf),
                       Node(4.0, Plus(2, 3)), Node(-2.0, Leaf), Node(-8.0, Times(4, 5))]
    ensures WellFormed(nodes) && PowFreeReach(nodes, 6) && TreeShaped(nodes, 6)
    ensures Derivative(nodes, 6, 0) == 6.0 && Derivative(nodes, 6, 1) == -4.0
    ensures Derivative(nodes, 6, 3) == -2.0 && Derivative(nodes, 6, 5) == 4.0
  {
    assert Reach(nodes, 2) == {0, 1, 2};
    assert Reach(nodes, 4) == {0, 1, 2, 3, 4};
    assert Reach(nodes, 6) == {0, 1, 2, 3, 4, 5, 6};
    ParentsTree(nodes, 6, [2, 2, 4, 4, 6, 6, 6]);
  }

  /** Builds L = (a * b + c) * f with a = 2, b = -3, c = 10, f = -2 in an empty arena. */
  method BuildComposite(g: Graph) returns (a: nat, b: nat, c: nat, f: nat, l: nat)
    requires g.Valid() && g.nodes == []
    modifies g
    ensures g.Valid() && g.grad == Zeros(7)
    ensures g.nodes == [Node(2.0, Leaf), Node(-3.0, Leaf), Node(-6.0, Times(0, 1)), Node(10.0, Leaf),
                        Node(4.0, Plus(2, 3)), Node(-2.0, Leaf), Node(-8.0, Times(4, 5))]
    ensures a == 0 && b == 1 && c == 3 && f == 5 && l == 6
  {
    a := g.NewValue(2.0, Leaf);
    b := g.NewValue(-3.0, Leaf);
    var e := g.Mul(a, Ref(b));
    assert g.nodes == [Node(2.0, Leaf), Node(-3.0, Leaf), Node(-6.0, Times(0, 1))];
    c := g.NewValue(10.0, Leaf);
    var d := g.Add(e, Ref(c));
    assert g.nodes == [Node(2.0, Leaf), Node(-3.0, Leaf), Node(-6.0, Times(0, 1)), Node(10.0, Leaf),
                       Node(4.0, Plus(2, 3))];
    f := g.NewValue(-2.0, Leaf);
    l := g.Mul(d, Ref(f));
  }

  /** L = (a * b + c) * f: L is -8 and the grads of a, b, c, f are 6, -4, -2 and 4. */
  method CompositeGrads() returns (data: real, ga: real, gb: real, gc: real, gf: real)
    ensures data == -8.0 && ga == 6.0 && gb == -4.0 && gc == -2.0 && gf == 4.0
  {
    var g := new Graph();
    var a, b, c, f, l := BuildComposite(g);
    CompositeGraph(g.nodes);
    var ok;
    ghost var order;
    ok, order := g.Backward(l);
    data, ga, gb, gc, gf := g.nodes[l].data, g.grad[a], g.grad[b], g.grad[c], g.grad[f];
  }

  /**
   * `(x ** 2).backward()`: the power node's rule raises before it writes any
   * grad, so x's grad stays 0 while the root's was set to 1.
   */
  method PowBackwardRaises(x: real) returns (data: real, ok: bool, gx: real, groot: real)
    ensures data == x * x && !ok && gx == 0.0 && groot == 1.0
  {
    var g := new Graph();
    var a := g.NewValue(x, Leaf);
    var p := g.Pow(a, 2);
    assert g.nodes[p] == Node(x * x, Power(0, 1)) by {
      assert RealPow(x, 2) == x * RealPow(x, 1) && RealPow(x, 1) == x;
    }
    ghost var order;
    ok, order := g.Backward(p);
    data, gx, groot := g.nodes[p].data, g.grad[a], g.grad[p];
  }

  /** How a pass over a + b moves grads, from any starting grads. */
  lemma SumPass(nodes: seq<Node>, o: seq<nat>, h: seq<real>)
    requires nodes == [Node(2.0, Leaf), Node(3.0, Leaf), Node(5.0, Plus(0, 1))] && |h| == 3
    requires Topological(nodes, o) && NoDup(o) && Elems(o) == {0, 1, 2}
    ensures InArena(nodes, o) && PowFree(nodes, o)
    ensures Run(nodes, h, o) == [h[0] + h[2], h[1] + h[2], h[2]]
  {
    forall j | 0 <= j < |o| ensures o[j] < 3 {
      assert o[j] in Elems(o);
    }
    var f := Run(nodes, h, o);
    forall v | 0 <= v < 3
      ensures f[v] == h[v] + Product(Weight(nodes, 0, v), f[0]) + Product(Weight(nodes, 1, v), f[1])
                          + Product(Weight(nodes, 2, v), f[2])
    {
      RunSolves(nodes, h, o, v);
      var t := OrderTerms(nodes, f, o, v);
      assert Sum(t, 3) == t(0) + t(1) + t(2);
    }
    assert Weight(nodes, 2, 0) == 1.0 && Weight(nodes, 2, 1) == 1.0 && Weight(nodes, 2, 2) == 0.0;
    assert forall v :: 0 <= v < 3 ==> Weight(nodes, 0, v) == 0.0 && Weight(nodes, 1, v) == 0.0;
    assert f[0] == h[0] + f[2] && f[1] == h[1] + f[2] && f[2] == h[2];
  }

  /** The second pass over a + b, from the grads 1, 1, 1 the first left, with the root's reset to 1. */
  lemma SecondSumPass(nodes: seq<Node>, order: seq<nat>)
    requires nodes == [Node(2.0, Leaf), Node(3.0, Leaf), Node(5.0, Plus(0, 1))]
    requires DfsOrder(nodes, 2, order)
    ensures FirstPow(nodes, order) == |order|
    ensures Run(nodes, [1.0, 1.0, 1.0], order[..FirstPow(nodes, order)]) == [2.0, 2.0, 1.0]
  {
    SumGraph(nodes);
    TreeOrderTopological(nodes, 2, order);
    SumPass(nodes, order, [1.0, 1.0, 1.0]);
    assert FirstPow(nodes, order) == |order|;
    assert order[..FirstPow(nodes, order)] == order;
  }

  /**
   * Calling `backward` twice on a + b without resetting the grads: the root's
   * grad is set to 1 again and a's and b's grads grow to 2.
   */
  method SecondCallAccumulates() returns (ga: real, gb: real)
    ensures ga == 2.0 && gb == 2.0
  {
    var g := new Graph();
    var a := g.NewValue(2.0, Leaf);
    var b := g.NewValue(3.0, Leaf);
    var c := g.Add(a, Ref(b));
    SumGraph(g.nodes);
    assert g.grad == Zeros(3);
    var ok;
    ghost var order;
    ok, order := g.Backward(c);
    assert g.grad == [1.0, 1.0, 1.0];
    assert g.grad[c := 1.0] == [1.0, 1.0, 1.0];
    ok, order := g.Backward(c);
    SecondSumPass(g.nodes, order);
    ga, gb := g.grad[a], g.grad[b];
  }

  /** b = a + 1, d = b * c, R = b + d: b is an operand of both d and R. */
  function SharedNodes(a: real, c: real): seq<Node>
  {
    [Node(a, Leaf), Node(1.0, Leaf), Node(a + 1.0, Plus(0, 1)), Node(c, Leaf), Node((a + 1.0) * c, Times(2, 3)),
     Node(a + 1.0 + (a + 1.0) * c, Plus(2, 4))]
  }

  lemma SharedGraph(nodes: seq<Node>, a: real, c: real)
    requires nodes == SharedNodes(a, c)
    ensures WellFormed(nodes) && Reach(nodes, 5) == {0, 1, 2, 3, 4, 5}
    ensures PowFreeReach(nodes, 5)
    ensures Derivative(nodes, 5, 0) == 1.0 + c
  {
    assert Reach(nodes, 2) == {0, 1, 2};
    assert Reach(nodes, 4) == {0, 1, 2, 3, 4};
    assert Derivative(nodes, 2, 0) == 1.0;
    assert Derivative(nodes, 4, 0) == c;
  }

  /** The nodes each node of the shared graph reaches. */
  lemma SharedReach(nodes: seq<Node>, a: real, c: real)
    requires nodes == SharedNodes(a, c)
    ensures WellFormed(nodes) && Reach(nodes, 5) == {0, 1, 2, 3, 4, 5}
    ensures Reach(nodes, 4) == {0, 1, 2, 3, 4} && Reach(nodes, 3) == {3}
    ensures Reach(nodes, 2) == {0, 1, 2} && Reach(nodes, 1) == {1} && Reach(nodes, 0) == {0}
  {
    SharedGraph(nodes, a, c);
    assert Reach(nodes, 2) == {0, 1, 2};
    assert Reach(nodes, 4) == {0, 1, 2, 3, 4};
  }

  /** The entries of R, b, a, 1, d, c before each position. */
  lemma SharedPrefixes(o: seq<nat>)
    requires o == [5, 2, 0, 1, 4, 3]
    ensures Elems(o[..0]) == {} && Elems(o[..1]) == {5} && Elems(o[..2]) == {2, 5}
    ensures Elems(o[..3]) == {0, 2, 5} && Elems(o[..4]) == {0, 1, 2, 5}
    ensures Elems(o[..5]) == {0, 1, 2, 4, 5}
  {
    assert o[..1] == [5] && o[..2] == [5, 2] && o[..3] == [5, 2, 0];
    assert o[..4] == [5, 2, 0, 1] && o[..5] == [5, 2, 0, 1, 4];
  }

  /** The entries of the block each position of R, b, a, 1, d, c opens. */
  lemma SharedSlices(o: seq<nat>)
    requires o == [5, 2, 0, 1, 4, 3]
    ensures Elems(o[0..6]) == {0, 1, 2, 3, 4, 5} && Elems(o[1..4]) == {0, 1, 2}
    ensures Elems(o[2..3]) == {0} && Elems(o[3..4]) == {1}
    ensures Elems(o[4..6]) == {3, 4} && Elems(o[5..6]) == {3}
  {
    assert o[0..6] == o && o[1..4] == [2, 0, 1] && o[2..3] == [0];
    assert o[3..4] == [1] && o[4..6] == [4, 3] && o[5..6] == [3];
  }

  /** A block o[j..e] holding exactly the part of o[j]'s reach not recorded before j. */
  lemma BlockAt(nodes: seq<Node>, o: seq<nat>, j: nat, e: nat, block: set<nat>, before: set<nat>)
    requires WellFormed(nodes) && j < e <= |o| && o[j] < |nodes|
    requires Elems(o[j..e]) == block && Elems(o[..j]) == before
    requires block == Reach(nodes, o[j]) - before
    ensures SubtreeAt(nodes, o, j)
  {
  }

  /** In R, b, a, 1, d, c each node is followed at once by the nodes it reaches that come after it. */
  lemma SharedBlocks(nodes: seq<Node>, a: real, c: real, o: seq<nat>)
    requires nodes == SharedNodes(a, c) && o == [5, 2, 0, 1, 4, 3]
    ensures DepthFirstFrom(nodes, o, 0)
  {
    SharedReach(nodes, a, c);
    OuterBlocks(nodes, o);
    LeafBlocks(nodes, o);
  }

  /** The blocks R, b, a, 1, d, c opens at R, b and d, from what each node reaches. */
  lemma OuterBlocks(nodes: seq<Node>, o: seq<nat>)
    requires WellFormed(nodes) && |nodes| == 6 && o == [5, 2, 0, 1, 4, 3]
    requires Reach(nodes, 5) == {0, 1, 2, 3, 4, 5} && Reach(nodes, 4) == {0, 1, 2, 3, 4}
    requires Reach(nodes, 3) == {3} && Reach(nodes, 2) == {0, 1, 2}
    requires Reach(nodes, 1) == {1} && Reach(nodes, 0) == {0}
    ensures SubtreeAt(nodes, o, 0) && SubtreeAt(nodes, o, 1) && SubtreeAt(nodes, o, 4)
  {
    SharedPrefixes(o);
    SharedSlices(o);
    BlockAt(nodes, o, 0, 6, {0, 1, 2, 3, 4, 5}, {});
    BlockAt(nodes, o, 1, 4, {0, 1, 2}, {5});
    BlockAt(nodes, o, 4, 6, {3, 4}, {0, 1, 2, 5});
  }

  /** The one-entry blocks R, b, a, 1, d, c opens at the leaves a, 1 and c. */
  lemma LeafBlocks(nodes: seq<Node>, o: seq<nat>)
    requires WellFormed(nodes) && |nodes| == 6 && o == [5, 2, 0, 1, 4, 3]
    requires Reach(nodes, 5) == {0, 1, 2, 3, 4, 5} && Reach(nodes, 4) == {0, 1, 2, 3, 4}
    requires Reach(nodes, 3) == {3} && Reach(nodes, 2) == {0, 1, 2}
    requires Reach(nodes, 1) == {1} && Reach(nodes, 0) == {0}
    ensures SubtreeAt(nodes, o, 2) && SubtreeAt(nodes, o, 3) && SubtreeAt(nodes, o, 5)
  {
    SharedPrefixes(o);
    SharedSlices(o);
    BlockAt(nodes, o, 2, 3, {0}, {2, 5});
    BlockAt(nodes, o, 3, 4, {1}, {0, 2, 5});
    BlockAt(nodes, o, 5, 6, {3}, {0, 1, 2, 4, 5});
  }

  /**
   * On the shared graph, when iterating R's prev yields b before d, the walk
   * records R, b, a, 1, d, c: a depth-first pre-order of the graph, but not a
   * topological order, since d, a user of b, comes after b.
   */
  lemma SharedPreorder(nodes: seq<Node>, a: real, c: real, o: seq<nat>)
    requires nodes == SharedNodes(a, c) && o == [5, 2, 0, 1, 4, 3]
    ensures DfsOrder(nodes, 5, o) && !Topological(nodes, o)
  {
    SharedGraph(nodes, a, c);
    SharedBlocks(nodes, a, c, o);
    assert o[0] == 5 && o[1] == 2 && o[2] == 0 && o[3] == 1 && o[4] == 4 && o[5] == 3;
    assert Elems(o) == {0, 1, 2, 3, 4, 5};
    assert NoDup(o);
    assert PreorderFrom(nodes, o, 0) by {
      assert IsChild(nodes, o[0], o[1]) && IsChild(nodes, o[1], o[2]) && IsChild(nodes, o[1], o[3]);
      assert IsChild(nodes, o[0], o[4]) && IsChild(nodes, o[4], o[5]);
    }
    assert IsChild(nodes, o[4], o[1]);
  }

  /** What each rule of the shared graph does to the grads of a and b. */
  lemma SharedRules(nodes: seq<Node>, a: real, c: real, h: seq<real>)
    requires nodes == SharedNodes(a, c) && |h| == 6
    ensures WellFormed(nodes) && InArena(nodes, [5, 2, 0, 1, 4, 3]) && PowFree(nodes, [5, 2, 0, 1, 4, 3])
    ensures Rule(nodes, h, 5)[0] == h[0] && Rule(nodes, h, 5)[2] == h[2] + h[5]
    ensures Rule(nodes, h, 2)[0] == h[0] + h[2]
    ensures Rule(nodes, h, 0) == h && Rule(nodes, h, 1) == h && Rule(nodes, h, 3) == h
    ensures Rule(nodes, h, 4)[0] == h[0]
  {
  }

  /** One more rule of the shared graph after the rules of o, as it acts on a's and b's grads. */
  lemma SharedStep(nodes: seq<Node>, a: real, c: real, g: seq<real>, o: seq<nat>, p: nat, o': seq<nat>)
    requires nodes == SharedNodes(a, c) && |g| == 6 && p < 6 && InArena(nodes, o) && PowFree(nodes, o)
    requires o' == o + [p]
    ensures InArena(nodes, o') && PowFree(nodes, o')
    ensures var before, after := Run(nodes, g, o), Run(nodes, g, o');
      after[0] == (if p == 2 then before[0] + before[2] else before[0]) &&
      (p == 5 ==> after[2] == before[2] + before[5])
  {
    SharedRules(nodes, a, c, Run(nodes, g, o));
    assert forall j :: 0 <= j < |o| ==> o'[j] == o[j];
    assert o'[..|o|] == o && o'[..|o| + 1] == o';
    RunExtend(nodes, g, o', |o|);
  }

  /** The rules of the shared graph in the walk's order, as they act on a's grad. */
  lemma SharedRun(nodes: seq<Node>, a: real, c: real, g: seq<real>)
    requires nodes == SharedNodes(a, c) && |g| == 6
    ensures InArena(nodes, [5, 2, 0, 1, 4, 3]) && PowFree(nodes, [5, 2, 0, 1, 4, 3])
    ensures Run(nodes, g, [5, 2, 0, 1, 4, 3])[0] == g[0] + (g[2] + g[5])
  {
    var o0, o1, o2, o3, o4, o5, o6 := [], [5], [5, 2], [5, 2, 0], [5, 2, 0, 1], [5, 2, 0, 1, 4], [5, 2, 0, 1, 4, 3];
    SharedStep(nodes, a, c, g, o0, 5, o1);
    SharedStep(nodes, a, c, g, o1, 2, o2);
    SharedStep(nodes, a, c, g, o2, 0, o3);
    SharedStep(nodes, a, c, g, o3, 1, o4);
    SharedStep(nodes, a, c, g, o4, 4, o5);
    SharedStep(nodes, a, c, g, o5, 3, o6);
  }

  /**
   * Running the rules in that order from fresh grads with R's set to 1:
   * b's rule passes b's grad to a before d's rule has added c's data to
   * b's grad, so a's grad ends 1 while d R / d a is 1 + c.
   */
  lemma PreorderCounterexample(nodes: seq<Node>, a: real, c: real, o: seq<nat>)
    requires nodes == SharedNodes(a, c) && o == [5, 2, 0, 1, 4, 3]
    ensures DfsOrder(nodes, 5, o) && !Topological(nodes, o) && InArena(nodes, o) && PowFree(nodes, o)
    ensures Run(nodes, Zeros(6)[5 := 1.0], o)[0] == 1.0
    ensures Derivative(nodes, 5, 0) == 1.0 + c
  {
    SharedGraph(nodes, a, c);
    SharedPreorder(nodes, a, c, o);
    SharedRun(nodes, a, c, Zeros(6)[5 := 1.0]);
  }

  /** Builds b = a + 1, d = b * c, R = b + d with a = x and c = y in an empty arena. */
  method BuildShared(g: Graph, x: real, y: real) returns (a: nat, c: nat, r: nat)
    requires g.Valid() && g.nodes == []
    modifies g
    ensures g.Valid()
    ensures g.grad == Zeros(6)
    ensures g.nodes == SharedNodes(x, y)
    ensures a == 0 && c == 3 && r == 5
  {
    ghost var shared := [Node(x, Leaf), Node(1.0, Leaf), Node(x + 1.0, Plus(0, 1)), Node(y, Leaf),
                       Node((x + 1.0) * y, Times(2, 3)), Node(x + 1.0 + (x + 1.0) * y, Plus(2, 4))];
    assert shared == SharedNodes(x, y);
    a := g.NewValue(x, Leaf);
    var b := g.Add(a, Num(1.0));
    assert g.nodes == [Node(x, Leaf), Node(1.0, Leaf), Node(x + 1.0, Plus(0, 1))];
    c := g.NewValue(y, Leaf);
    var d := g.Mul(b, Ref(c));
    assert g.nodes[4] == Node((x + 1.0) * y, Times(2, 3));
    assert g.nodes == [Node(x, Leaf), Node(1.0, Leaf), Node(x + 1.0, Plus(0, 1)), Node(y, Leaf),
                       Node((x + 1.0) * y, Times(2, 3))];
    assert g.grad == Zeros(5);
    r := g.Add(b, Ref(d));
    assert g.nodes[5] == Node(x + 1.0 + (x + 1.0) * y, Plus(2, 4));
    assert g.nodes == shared;
    assert g.grad == Zeros(6);
  }

  /** What `backward` leaves in a's grad on the shared graph, from fresh grads, when the walk took b first. */
  lemma SharedBackward(nodes: seq<Node>, a: real, c: real, o: seq<nat>, grad: seq<real>)
    requires nodes == SharedNodes(a, c) && o == [5, 2, 0, 1, 4, 3] && InArena(nodes, o)
    requires grad == Run(nodes, Zeros(6)[5 := 1.0], o[..FirstPow(nodes, o)])
    ensures grad[0] == 1.0
  {
    PreorderCounterexample(nodes, a, c, o);
    assert o[..FirstPow(nodes, o)] == o;
  }

  /**
   * `backward` on R = b + d, d = b * c, b = a + 1: when the walk records
   * R, b, a, 1, d, c, a's grad ends 1, short of dR/da = 1 + c.
   */
  method SharedOperandPreorder(x: real, y: real) returns (data: real, ga: real, ghost order: seq<nat>)
    ensures data == x + 1.0 + (x + 1.0) * y
    ensures order == [5, 2, 0, 1, 4, 3] ==> ga == 1.0
  {
    var g := new Graph();
    var a, c, r := BuildShared(g, x, y);
    var ok;
    ok, order := g.Backward(r);
    if order == [5, 2, 0, 1, 4, 3] {
      SharedBackward(g.nodes, x, y, order, g.grad);
    }
    data, ga := g.nodes[r].data, g.grad[a];
  }

  /** The same graph differentiated in a topological order: a's grad is dR/da = 1 + c. */
  method SharedOperandTopological(x: real, y: real) returns (data: real, ga: real)
    ensures data == x + 1.0 + (x + 1.0) * y
    ensures ga == 1.0 + y
  {
    var g := new Graph();
    var a, c, r := BuildShared(g, x, y);
    SharedGraph(g.nodes, x, y);
    var ok;
    ghost var order;
    ok, order := g.BackwardTopological(r);
    data, ga := g.nodes[r].data, g.grad[a];
  }
}
