/**
 * The `Value` API over an arena. Each operation allocates its result node
 * (and a leaf for a plain-number operand) at the end of the arena with grad
 * 0; `Backward` walks the graph from a root, sets the root's grad to 1 and
 * runs the recorded nodes' rules in the recorded order, updating the grads
 * in place.
 */
module Engine {
  import opened Nodes
  import opened Traversal
  import opened Propagation
  import opened Calculus

  /** An operand as the source accepts it: an existing node, or a plain number it lifts to a leaf. */
  datatype Operand = Ref(index: nat) | Num(value: real)

  /** The operand names an existing node (plain numbers always qualify). */
  predicate Names(other: Operand, n: nat)
  {
    other.Ref? ==> other.index < n
  }

  /** The nodes allocated to lift the operand: one leaf for a plain number, none for a node. */
  function Lifted(other: Operand): seq<Node>
  {
    match other
    case Ref(_) => []
    case Num(x) => [Node(x, Leaf)]
  }

  /** The arena index the operand occupies once lifted, when the arena held n nodes before. */
  function Slot(other: Operand, n: nat): nat
  {
    match other
    case Ref(i) => i
    case Num(_) => n
  }

  /** The operand's data. */
  function OperandData(nodes: seq<Node>, other: Operand): real
    requires Names(other, |nodes|)
  {
    match other
    case Ref(i) => nodes[i].data
    case Num(x) => x
  }

  class Graph {
    var nodes: seq<Node>
    var grad: seq<real>

    ghost predicate Valid()
      reads this
    {
      WellFormed(nodes) && |grad| == |nodes|
    }

    constructor ()
      ensures Valid() && nodes == [] && grad == []
    {
      nodes, grad := [], [];
    }

    /** `Value.__init__`: a new node with the given data and operation, grad 0. */
    method NewValue(data: real, op: Op) returns (i: nat)
      requires Valid() && OperandsBelow(op, |nodes|)
      modifies this
      ensures Valid()
      ensures i == old(|nodes|)
      ensures nodes == old(nodes) + [Node(data, op)]
      ensures grad == old(grad) + [0.0]
    {
      i := |nodes|;
      nodes := nodes + [Node(data, op)];
      grad := grad + [0.0];
    }

    /** `other if isinstance(other, Value) else Value(other)`. */
    method Lift(other: Operand) returns (i: nat)
      requires Valid() && Names(other, |nodes|)
      modifies this
      ensures Valid()
      ensures i == Slot(other, old(|nodes|)) && i < |nodes|
      ensures nodes == old(nodes) + Lifted(other)
      ensures grad == old(grad) + Zeros(|Lifted(other)|)
      ensures nodes[i].data == OperandData(old(nodes), other)
    {
      match other
      case Ref(j) =>
        i := j;
        assert grad == old(grad) + Zeros(0);
      case Num(x) =>
        i := NewValue(x, Leaf);
    }

    /** `a + other`: a node holding the sum, with prev {a, other}. */
    method Add(a: nat, other: Operand) returns (out: nat)
      requires Valid() && a < |nodes| && Names(other, |nodes|)
      modifies this
      ensures Valid()
      ensures out == |nodes| - 1
      ensures nodes == old(nodes) + Lifted(other)
        + [Node(old(nodes)[a].data + OperandData(old(nodes), other), Plus(a, Slot(other, old(|nodes|))))]
      ensures grad == old(grad) + Zeros(|nodes| - old(|nodes|))
    {
      var b := Lift(other);
      out := NewValue(nodes[a].data + nodes[b].data, Plus(a, b));
    }

    /** `a * other`: a node holding the product, with prev {a, other}. */
    method Mul(a: nat, other: Operand) returns (out: nat)
      requires Valid() && a < |nodes| && Names(other, |nodes|)
      modifies this
      ensures Valid()
      ensures out == |nodes| - 1
      ensures nodes == old(nodes) + Lifted(other)
        + [Node(old(nodes)[a].data * OperandData(old(nodes), other), Times(a, Slot(other, old(|nodes|))))]
      ensures grad == old(grad) + Zeros(|nodes| - old(|nodes|))
    {
      var b := Lift(other);
      var product := nodes[a].data * nodes[b].data;
      assert product == old(nodes)[a].data * OperandData(old(nodes), other);
      out := NewValue(product, Times(a, b));
    }

    /** `-a`, built as `a * -1`. */
    method Neg(a: nat) returns (out: nat)
      requires Valid() && a < |nodes|
      modifies this
      ensures Valid()
      ensures out == |nodes| - 1
      ensures nodes == old(nodes) + [Node(-1.0, Leaf), Node(old(nodes)[a].data * -1.0, Times(a, old(|nodes|)))]
      ensures nodes[out].data == -old(nodes)[a].data
      ensures grad == old(grad) + Zeros(2)
    {
      out := Mul(a, Num(-1.0));
    }

    /** `a - other`, built as `a + (-other)`: a plain number is negated before it is lifted. */
    method Sub(a: nat, other: Operand) returns (out: nat)
      requires Valid() && a < |nodes| && Names(other, |nodes|)
      modifies this
      ensures Valid()
      ensures out == |nodes| - 1
      ensures nodes[out].data == old(nodes)[a].data - OperandData(old(nodes), other)
      ensures var n := old(|nodes|);
        match other
        case Ref(b) =>
          nodes == old(nodes) + [Node(-1.0, Leaf), Node(old(nodes)[b].data * -1.0, Times(b, n)),
                                 Node(old(nodes)[a].data + old(nodes)[b].data * -1.0, Plus(a, n + 1))]
        case Num(x) =>
          nodes == old(nodes) + [Node(-x, Leaf), Node(old(nodes)[a].data + -x, Plus(a, n))]
      ensures grad == old(grad) + Zeros(|nodes| - old(|nodes|))
    {
      match other
      case Ref(b) =>
        var negated := Neg(b);
        out := Add(a, Ref(negated));
      case Num(x) =>
        out := Add(a, Num(-x));
    }

    /**
     * `a ** k` for a natural exponent k, lifted to a leaf: a node holding
     * a.data to the k-th power, with prev {a, exponent leaf}.
     */
    method Pow(a: nat, k: nat) returns (out: nat)
      requires Valid() && a < |nodes|
      modifies this
      ensures Valid()
      ensures out == |nodes| - 1
      ensures nodes == old(nodes) + [Node(k as real, Leaf), Node(RealPow(old(nodes)[a].data, k), Power(a, old(|nodes|)))]
      ensures grad == old(grad) + Zeros(2)
    {
      var e := Lift(Num(k as real));
      out := NewValue(RealPow(nodes[a].data, k), Power(a, e));
    }

    /** `a.relu()`: 0 for a negative input, the input otherwise; prev {a}. */
    method Relu(a: nat) returns (out: nat)
      requires Valid() && a < |nodes|
      modifies this
      ensures Valid()
      ensures out == |nodes| - 1
      ensures nodes == old(nodes) + [Node(if old(nodes)[a].data < 0.0 then 0.0 else old(nodes)[a].data, Rectify(a))]
      ensures nodes[out].data >= 0.0 && nodes[out].data >= old(nodes)[a].data
      ensures grad == old(grad) + [0.0]
    {
      out := NewValue(if nodes[a].data < 0.0 then 0.0 else nodes[a].data, Rectify(a));
    }

    /**
     * `node._backward()`. A power node's rule fails before it writes any
     * grad: it raises `self.data ** (other - 1)` with a float base and a
     * `Value` exponent, which the source does not support; `ok` is false then.
     */
    method ApplyRule(p: nat) returns (ok: bool)
      requires Valid() && p < |nodes|
      modifies this`grad
      ensures Valid()
      ensures ok == !nodes[p].op.Power?
      ensures ok ==> grad == Rule(nodes, old(grad), p)
      ensures !ok ==> grad == old(grad)
    {
      var arena, g := nodes, grad;
      match arena[p].op {
        case Leaf =>
          ok := true;
        case Plus(x, y) =>
          g := g[x := g[x] + g[p]];
          g := g[y := g[y] + g[p]];
          ok := true;
        case Times(x, y) =>
          g := g[x := g[x] + Product(arena[y].data, g[p])];
          g := g[y := g[y] + Product(arena[x].data, g[p])];
          ok := true;
        case Power(_, _) =>
          ok := false;
        case Rectify(x) =>
          g := g[x := g[x] + Product(if arena[x].data > 0.0 then 1.0 else 0.0, g[p])];
          ok := true;
      }
      grad := g;
    }

    /** `for node in order: node._backward()`, stopping where a rule raises. */
    method RunRules(order: seq<nat>) returns (ok: bool)
      requires Valid() && InArena(nodes, order)
      modifies this`grad
      ensures Valid()
      ensures ok == (FirstPow(nodes, order) == |order|)
      ensures grad == Run(nodes, old(grad), order[..FirstPow(nodes, order)])
    {
      ghost var first := FirstPow(nodes, order);
      var k := 0;
      while k < |order|
        invariant k <= first && |grad| == |nodes|
        invariant PowFree(nodes, order[..k])
        invariant grad == Run(nodes, old(grad), order[..k])
      {
        ok := ApplyRule(order[k]);
        if !ok {
          FirstPowAt(nodes, order, k);
          return;
        }
        RunExtend(nodes, old(grad), order, k);
        k := k + 1;
      }
      ok := true;
    }

    /**
     * `backward()`: record the nodes reachable from `root` in pre-order,
     * set the root's grad to 1, then run the recorded rules in that order.
     * `ok` is false when a recorded power node's rule raised; the rules
     * recorded before it have run.
     */
    method Backward(root: nat) returns (ok: bool, ghost order: seq<nat>)
      requires Valid() && root < |nodes|
      modifies this`grad
      ensures Valid()
      ensures DfsOrder(nodes, root, order) && InArena(nodes, order)
      ensures ok == PowFree(nodes, order) == PowFreeReach(nodes, root)
      ensures grad == Run(nodes, old(grad)[root := 1.0], order[..FirstPow(nodes, order)])
      ensures grad[root] == 1.0
      ensures forall v :: 0 <= v < |nodes| && v !in Reach(nodes, root) ==> grad[v] == old(grad)[v]
      ensures old(grad) == Zeros(|nodes|) && PowFreeReach(nodes, root) && TreeShaped(nodes, root) ==>
        forall v :: 0 <= v < |nodes| ==> grad[v] == Derivative(nodes, root, v)
    {
      var topological_order, visited := BuildOrderDfs(nodes, root, [], {});
      order := topological_order;
      ReachInArena(nodes, root, order);
      grad := grad[root := 1.0];
      ghost var start := grad;
      ok := RunRules(topological_order);
      ghost var done := order[..FirstPow(nodes, order)];
      assert Elems(done) <= Reach(nodes, root) by {
        forall x | x in Elems(done) ensures x in Elems(order) { }
      }
      RootKeeps(nodes, root, start, done);
      forall v | 0 <= v < |nodes| && v !in Reach(nodes, root) ensures grad[v] == old(grad)[v] {
        UnreachableKeeps(nodes, root, start, done, v);
      }
      PowFreeElems(nodes, root, order);
      if TreeShaped(nodes, root) {
        TreeOrderTopological(nodes, root, order);
        FreshRun(nodes, root, order, old(grad));
      }
    }

    /**
     * The traversal the engine needs on graphs with shared nodes: record the
     * reachable nodes in post-order and run the rules in reverse, so that
     * every node's rule runs after the rules of all of its users.
     */
    method BackwardTopological(root: nat) returns (ok: bool, ghost order: seq<nat>)
      requires Valid() && root < |nodes|
      modifies this`grad
      ensures Valid()
      ensures Topological(nodes, order) && NoDup(order) && Elems(order) == Reach(nodes, root)
      ensures InArena(nodes, order)
      ensures ok == PowFree(nodes, order) == PowFreeReach(nodes, root)
      ensures grad == Run(nodes, old(grad)[root := 1.0], order[..FirstPow(nodes, order)])
      ensures old(grad) == Zeros(|nodes|) && PowFreeReach(nodes, root) ==>
        forall v :: 0 <= v < |nodes| ==> grad[v] == Derivative(nodes, root, v)
    {
      var post, visited := BuildPostOrder(nodes, root, [], {});
      ReversedPostOrder(nodes, post);
      var reversed := Reversed(post);
      order := reversed;
      ReachInArena(nodes, root, order);
      grad := grad[root := 1.0];
      ok := RunRules(reversed);
      PowFreeElems(nodes, root, order);
      FreshRun(nodes, root, order, old(grad));
    }
  }
}
