/**
 * The value nodes of the engine, held in an arena: a node is named by its
 * index, and an operation only ever refers to nodes that already exist, so
 * every operand index is smaller than the index of the node built from it.
 * The backward closure of a node is replaced by its operation tag; `Rule`
 * is what that closure does to the gradients.
 */
module Nodes {

  /** The operation that produced a node, with the arena indices of its operands. */
  datatype Op =
    | Leaf                                 // a plain input: no operands, a no-op rule
    | Plus(x: nat, y: nat)                 // "+"
    | Times(x: nat, y: nat)                // "*"
    | Power(base: nat, exponent: nat)      // "**": the exponent is a lifted leaf
    | Rectify(x: nat)                      // "RELU"

  /** The immutable part of a node; its `grad` lives in the arena's gradient sequence. */
  datatype Node = Node(data: real, op: Op)

  /** The set `prev` of a node: the distinct operands it was built from. */
  function Prev(op: Op): set<nat>
  {
    match op
    case Leaf => {}
    case Plus(x, y) => {x, y}
    case Times(x, y) => {x, y}
    case Power(b, e) => {b, e}
    case Rectify(x) => {x}
  }

  /** Every operand of `op` is an index below `n`. */
  predicate OperandsBelow(op: Op, n: nat)
  {
    match op
    case Leaf => true
    case Plus(x, y) => x < n && y < n
    case Times(x, y) => x < n && y < n
    case Power(b, e) => b < n && e < n
    case Rectify(x) => x < n
  }

  /** Every operand was allocated before the node that uses it, which keeps the graph acyclic. */
  ghost predicate WellFormed(nodes: seq<Node>)
  {
    forall i :: 0 <= i < |nodes| ==> OperandsBelow(nodes[i].op, i)
  }

  /** Node `p` exists and holds `c` in its `prev` set. */
  predicate IsChild(nodes: seq<Node>, p: nat, c: nat)
  {
    p < |nodes| && c in Prev(nodes[p].op)
  }

  /** Real multiplication, as a named function: the rules below are written with it. */
  function Product(a: real, b: real): real
  {
    a * b
  }

  /** x raised to a natural power. */
  function RealPow(x: real, k: nat): real
  {
    if k == 0 then 1.0 else x * RealPow(x, k - 1)
  }

  /** The nodes reachable from `r` through `prev`, `r` included. */
  ghost function Reach(nodes: seq<Node>, r: nat): (s: set<nat>)
    requires WellFormed(nodes) && r < |nodes|
    ensures r in s
    ensures forall x :: x in s ==> x <= r
    decreases r
  {
    match nodes[r].op
    case Leaf => {r}
    case Plus(x, y) => {r} + Reach(nodes, x) + Reach(nodes, y)
    case Times(x, y) => {r} + Reach(nodes, x) + Reach(nodes, y)
    case Power(b, e) => {r} + Reach(nodes, b) + Reach(nodes, e)
    case Rectify(x) => {r} + Reach(nodes, x)
  }

  /** An operand's reachable set lies inside its user's. */
  lemma ReachChild(nodes: seq<Node>, p: nat, c: nat)
    requires WellFormed(nodes) && IsChild(nodes, p, c)
    ensures c < p && Reach(nodes, c) <= Reach(nodes, p)
  {
  }

  /** Reachability is transitive. */
  lemma {:induction false} ReachTransitive(nodes: seq<Node>, r: nat, x: nat)
    requires WellFormed(nodes) && r < |nodes| && x in Reach(nodes, r)
    ensures x < |nodes| && Reach(nodes, x) <= Reach(nodes, r)
    decreases r
  {
    if x != r {
      match nodes[r].op
      case Leaf =>
      case Plus(a, b) =>
        if x in Reach(nodes, a) { ReachTransitive(nodes, a, x); } else { ReachTransitive(nodes, b, x); }
      case Times(a, b) =>
        if x in Reach(nodes, a) { ReachTransitive(nodes, a, x); } else { ReachTransitive(nodes, b, x); }
      case Power(a, b) =>
        if x in Reach(nodes, a) { ReachTransitive(nodes, a, x); } else { ReachTransitive(nodes, b, x); }
      case Rectify(a) =>
        ReachTransitive(nodes, a, x);
    }
  }

  /** No reachable node is a power node: the backward rules of all of them can run. */
  ghost predicate PowFreeReach(nodes: seq<Node>, r: nat)
    requires WellFormed(nodes) && r < |nodes|
  {
    forall x :: x in Reach(nodes, r) ==> !nodes[x].op.Power?
  }

  /**
   * The partial derivative of node p's value with respect to the value of
   * node v, counted once per operand slot that holds v: the factor by which
   * p's rule scales its own grad into v's grad. A power node has no rule
   * that runs, so it has no local derivative here.
   */
  function Local(nodes: seq<Node>, p: nat, v: nat): (d: real)
    requires WellFormed(nodes) && p < |nodes| && !nodes[p].op.Power?
    ensures d != 0.0 ==> IsChild(nodes, p, v)
    ensures v >= p ==> d == 0.0
  {
    match nodes[p].op
    case Leaf => 0.0
    case Plus(x, y) =>
      (if x == v then 1.0 else 0.0) + (if y == v then 1.0 else 0.0)
    case Times(x, y) =>
      (if x == v then nodes[y].data else 0.0) + (if y == v then nodes[x].data else 0.0)
    case Rectify(x) =>
      if x == v && nodes[x].data > 0.0 then 1.0 else 0.0
  }

  /** What p's rule adds into v's grad when p's own grad is `grad`. */
  function Contribution(nodes: seq<Node>, p: nat, v: nat, grad: real): real
    requires WellFormed(nodes) && p < |nodes| && !nodes[p].op.Power?
  {
    Product(Local(nodes, p, v), grad)
  }

  /**
   * The backward closure of node p, run on the gradient vector g: each
   * operand's grad is increased by p's local derivative times p's grad, in
   * the order the source's `+=` statements run, and nothing else changes.
   */
  function Rule(nodes: seq<Node>, g: seq<real>, p: nat): (r: seq<real>)
    requires WellFormed(nodes) && |g| == |nodes| && p < |nodes| && !nodes[p].op.Power?
    ensures |r| == |g|
  {
    match nodes[p].op
    case Leaf => g
    case Plus(x, y) =>
      var g1 := g[x := g[x] + g[p]];
      g1[y := g1[y] + g1[p]]
    case Times(x, y) =>
      var g1 := g[x := g[x] + Product(nodes[y].data, g[p])];
      g1[y := g1[y] + Product(nodes[x].data, g1[p])]
    case Rectify(x) =>
      g[x := g[x] + Product(if nodes[x].data > 0.0 then 1.0 else 0.0, g[p])]
  }

  /**
   * Every rule does the same thing, whatever the operation: it adds to each
   * grad the node's local derivative in that grad's node times the node's
   * own grad, and leaves every other grad alone.
   */
  lemma RuleAdds(nodes: seq<Node>, g: seq<real>, p: nat)
    requires WellFormed(nodes) && |g| == |nodes| && p < |nodes| && !nodes[p].op.Power?
    ensures forall v {:trigger Local(nodes, p, v)} :: 0 <= v < |g| ==>
      Rule(nodes, g, p)[v] == g[v] + Contribution(nodes, p, v, g[p])
  {
    match nodes[p].op
    case Leaf => LeafRule(nodes, g, p);
    case Plus(x, y) => PlusRule(nodes, g, p, x, y);
    case Times(x, y) => TimesRule(nodes, g, p, x, y);
    case Rectify(x) => RectifyRule(nodes, g, p, x);
  }

  /** A leaf's closure does nothing. */
  lemma LeafRule(nodes: seq<Node>, g: seq<real>, p: nat)
    requires WellFormed(nodes) && |g| == |nodes| && p < |nodes| && nodes[p].op.Leaf?
    ensures Rule(nodes, g, p) == g
    ensures forall v :: 0 <= v < |g| ==> Rule(nodes, g, p)[v] == g[v] + Contribution(nodes, p, v, g[p])
  {
    forall v | 0 <= v < |g| ensures Contribution(nodes, p, v, g[p]) == 0.0 {
      assert Local(nodes, p, v) == 0.0;
    }
  }

  /** The + closure adds the node's grad to each operand's, so twice to an operand used twice. */
  lemma PlusRule(nodes: seq<Node>, g: seq<real>, p: nat, x: nat, y: nat)
    requires WellFormed(nodes) && |g| == |nodes| && p < |nodes| && nodes[p].op == Plus(x, y)
    ensures Rule(nodes, g, p)[x] == g[x] + (if x == y then 2.0 else 1.0) * g[p]
    ensures Rule(nodes, g, p)[y] == g[y] + (if x == y then 2.0 else 1.0) * g[p]
    ensures forall v :: 0 <= v < |g| && v != x && v != y ==> Rule(nodes, g, p)[v] == g[v]
    ensures forall v :: 0 <= v < |g| ==> Rule(nodes, g, p)[v] == g[v] + Contribution(nodes, p, v, g[p])
  {
    var r := Rule(nodes, g, p);
    forall v | 0 <= v < |g| ensures r[v] == g[v] + Contribution(nodes, p, v, g[p]) {
      var a: real := if x == v then 1.0 else 0.0;
      var b: real := if y == v then 1.0 else 0.0;
      assert Local(nodes, p, v) == a + b;
      assert (a + b) * g[p] == a * g[p] + b * g[p];
    }
  }

  /** The * closure adds the other operand's data times the node's grad to each operand's grad. */
  lemma TimesRule(nodes: seq<Node>, g: seq<real>, p: nat, x: nat, y: nat)
    requires WellFormed(nodes) && |g| == |nodes| && p < |nodes| && nodes[p].op == Times(x, y)
    ensures Rule(nodes, g, p)[x] ==
      g[x] + (if x == y then 2.0 * (nodes[x].data * g[p]) else nodes[y].data * g[p])
    ensures Rule(nodes, g, p)[y] ==
      g[y] + (if x == y then 2.0 * (nodes[x].data * g[p]) else nodes[x].data * g[p])
    ensures forall v :: 0 <= v < |g| && v != x && v != y ==> Rule(nodes, g, p)[v] == g[v]
    ensures forall v :: 0 <= v < |g| ==> Rule(nodes, g, p)[v] == g[v] + Contribution(nodes, p, v, g[p])
  {
    var r := Rule(nodes, g, p);
    forall v | 0 <= v < |g| ensures r[v] == g[v] + Contribution(nodes, p, v, g[p]) {
      var a: real := if x == v then nodes[y].data else 0.0;
      var b: real := if y == v then nodes[x].data else 0.0;
      assert Local(nodes, p, v) == a + b;
      assert (a + b) * g[p] == a * g[p] + b * g[p];
    }
  }

  /** The relu closure passes the node's grad to its input only when the input's data is positive. */
  lemma RectifyRule(nodes: seq<Node>, g: seq<real>, p: nat, x: nat)
    requires WellFormed(nodes) && |g| == |nodes| && p < |nodes| && nodes[p].op == Rectify(x)
    ensures Rule(nodes, g, p)[x] == g[x] + (if nodes[x].data > 0.0 then g[p] else 0.0)
    ensures forall v :: 0 <= v < |g| && v != x ==> Rule(nodes, g, p)[v] == g[v]
    ensures forall v :: 0 <= v < |g| ==> Rule(nodes, g, p)[v] == g[v] + Contribution(nodes, p, v, g[p])
  {
    var r := Rule(nodes, g, p);
    forall v | 0 <= v < |g| ensures r[v] == g[v] + Contribution(nodes, p, v, g[p]) {
      if v != x {
        assert Local(nodes, p, v) == 0.0;
      }
    }
  }
}
