/**
 * What the gradients mean. `Derivative` is forward mode: how node r's data
 * changes with node v's data when v is perturbed and every node built from
 * it is recomputed, by the differentiation rules of "+", "*" and relu. The
 * main theorem is that running the rules in a topological order from the
 * fresh gradients with the root's grad set to 1 (reverse mode) leaves every
 * node's grad equal to that derivative.
 */
module Calculus {
  import opened Nodes
  import opened Traversal
  import opened Propagation

  /** 1 where the two indices agree, 0 elsewhere. */
  function Delta(a: nat, b: nat): real
  {
    if a == b then 1.0 else 0.0
  }

  /** d data[r] / d data[v], by the chain rule through r's operands. */
  ghost function Derivative(nodes: seq<Node>, r: nat, v: nat): (d: real)
    requires WellFormed(nodes) && r < |nodes| && PowFreeReach(nodes, r)
    ensures v !in Reach(nodes, r) ==> d == 0.0
    decreases r
  {
    if r == v then 1.0
    else
      match nodes[r].op
      case Leaf => 0.0
      case Plus(x, y) => Derivative(nodes, x, v) + Derivative(nodes, y, v)
      case Times(x, y) =>
        Product(nodes[y].data, Derivative(nodes, x, v)) + Product(nodes[x].data, Derivative(nodes, y, v))
      case Rectify(x) => if nodes[x].data > 0.0 then Derivative(nodes, x, v) else 0.0
  }

  /** The local derivative of node p in v, taken as 0 past the end of the arena and at a power node. */
  function Weight(nodes: seq<Node>, p: nat, v: nat): real
    requires WellFormed(nodes)
  {
    if p < |nodes| && !nodes[p].op.Power? then Local(nodes, p, v) else 0.0
  }

  /** f(0) + f(1) + ... + f(n - 1). */
  function Sum(f: nat -> real, n: nat): real
  {
    if n == 0 then 0.0 else Sum(f, n - 1) + f(n - 1)
  }

  lemma {:induction false} SumAdd(f: nat -> real, g: nat -> real, h: nat -> real, n: nat)
    requires forall p: nat :: p < n ==> h(p) == f(p) + g(p)
    ensures Sum(h, n) == Sum(f, n) + Sum(g, n)
  {
    if n > 0 {
      SumAdd(f, g, h, n - 1);
    }
  }

  lemma {:induction false} SumScale(f: nat -> real, h: nat -> real, a: real, n: nat)
    requires forall p: nat :: p < n ==> h(p) == Product(a, f(p))
    ensures Sum(h, n) == Product(a, Sum(f, n))
  {
    if n > 0 {
      SumScale(f, h, a, n - 1);
    }
  }

  lemma {:induction false} SumSame(f: nat -> real, g: nat -> real, n: nat)
    requires forall p: nat :: p < n ==> f(p) == g(p)
    ensures Sum(f, n) == Sum(g, n)
  {
    if n > 0 {
      SumSame(f, g, n - 1);
    }
  }

  /** A sum whose terms vanish everywhere except at k is its term at k (or 0 when k is out of range). */
  lemma {:induction false} SumSingle(f: nat -> real, k: nat, n: nat)
    requires forall p: nat :: p < n && p != k ==> f(p) == 0.0
    ensures Sum(f, n) == if k < n then f(k) else 0.0
  {
    if n > 0 {
      SumSingle(f, k, n - 1);
    }
  }

  lemma Distribute(w: real, dr: real, d: real, a: real, dx: real, b: real, dy: real)
    requires dr == d + Product(a, dx) + Product(b, dy)
    ensures Product(w, dr) == Product(w, d) + (Product(a, Product(w, dx)) + Product(b, Product(w, dy)))
  {
  }

  /** p |-> p's local derivative in v times d data[r] / d data[p]. */
  ghost function DerivativeTerms(nodes: seq<Node>, r: nat, v: nat): nat -> real
    requires WellFormed(nodes) && r < |nodes| && PowFreeReach(nodes, r)
  {
    (p: nat) => Product(Weight(nodes, p, v), Derivative(nodes, r, p))
  }

  /**
   * The adjoint sum of a node r whose derivative is a times its operand x's
   * plus b times its operand y's splits the same way, plus r's own term.
   */
  lemma AdjointSplit(nodes: seq<Node>, r: nat, v: nat, x: nat, y: nat, a: real, b: real)
    requires WellFormed(nodes) && r < |nodes| && PowFreeReach(nodes, r)
    requires x < r && y < r && PowFreeReach(nodes, x) && PowFreeReach(nodes, y)
    requires forall p: nat ::
      Derivative(nodes, r, p) == Delta(r, p) + Product(a, Derivative(nodes, x, p)) + Product(b, Derivative(nodes, y, p))
    ensures Sum(DerivativeTerms(nodes, r, v), |nodes|)
      == Weight(nodes, r, v)
       + (Product(a, Sum(DerivativeTerms(nodes, x, v), |nodes|)) + Product(b, Sum(DerivativeTerms(nodes, y, v), |nodes|)))
  {
    var n := |nodes|;
    var tr, tx, ty := DerivativeTerms(nodes, r, v), DerivativeTerms(nodes, x, v), DerivativeTerms(nodes, y, v);
    var e := (p: nat) => Product(Weight(nodes, p, v), Delta(r, p));
    var sx := (p: nat) => Product(a, tx(p));
    var sy := (p: nat) => Product(b, ty(p));
    var lin := (p: nat) => sx(p) + sy(p);
    forall p: nat | p < n ensures tr(p) == e(p) + lin(p) {
      Distribute(Weight(nodes, p, v), Derivative(nodes, r, p), Delta(r, p), a, Derivative(nodes, x, p), b, Derivative(nodes, y, p));
    }
    SumAdd(e, lin, tr, n);
    SumAdd(sx, sy, lin, n);
    SumScale(tx, sx, a, n);
    SumScale(ty, sy, b, n);
    forall p: nat | p < n && p != r ensures e(p) == 0.0 {
      assert Delta(r, p) == 0.0;
    }
    SumSingle(e, r, n);
  }

  /** One step of the adjoint identity, from x's and y's to r's. */
  lemma AdjointStep(nodes: seq<Node>, r: nat, v: nat, x: nat, y: nat, a: real, b: real)
    requires WellFormed(nodes) && r < |nodes| && PowFreeReach(nodes, r) && v < |nodes|
    requires x < r && y < r && PowFreeReach(nodes, x) && PowFreeReach(nodes, y)
    requires forall p: nat ::
      Derivative(nodes, r, p) == Delta(r, p) + Product(a, Derivative(nodes, x, p)) + Product(b, Derivative(nodes, y, p))
    requires Weight(nodes, r, v) == Product(a, Delta(x, v)) + Product(b, Delta(y, v))
    requires Derivative(nodes, x, v) == Delta(x, v) + Sum(DerivativeTerms(nodes, x, v), |nodes|)
    requires Derivative(nodes, y, v) == Delta(y, v) + Sum(DerivativeTerms(nodes, y, v), |nodes|)
    ensures Derivative(nodes, r, v) == Delta(r, v) + Sum(DerivativeTerms(nodes, r, v), |nodes|)
  {
    AdjointSplit(nodes, r, v, x, y, a, b);
    Collect(a, b, Derivative(nodes, x, v), Derivative(nodes, y, v), Delta(x, v), Delta(y, v),
      Sum(DerivativeTerms(nodes, x, v), |nodes|), Sum(DerivativeTerms(nodes, y, v), |nodes|));
  }

  lemma Collect(a: real, b: real, dx: real, dy: real, ex: real, ey: real, sx: real, sy: real)
    requires dx == ex + sx && dy == ey + sy
    ensures Product(a, ex) + Product(b, ey) + (Product(a, sx) + Product(b, sy)) == Product(a, dx) + Product(b, dy)
  {
  }

  /**
   * The adjoint identity: d data[r] / d data[v] is 1 at v = r, plus the sum,
   * over every node p, of p's local derivative in v times d data[r] / d data[p].
   * It is the equation the reverse pass solves.
   */
  lemma {:induction false} DerivativeAdjoint(nodes: seq<Node>, r: nat, v: nat)
    requires WellFormed(nodes) && r < |nodes| && PowFreeReach(nodes, r) && v < |nodes|
    ensures Derivative(nodes, r, v) == Delta(r, v) + Sum(DerivativeTerms(nodes, r, v), |nodes|)
    decreases r
  {
    var n := |nodes|;
    match nodes[r].op
    case Leaf =>
      var t := DerivativeTerms(nodes, r, v);
      forall p: nat | p < n && p != r ensures t(p) == 0.0 {
        assert Derivative(nodes, r, p) == 0.0;
      }
      SumSingle(t, r, n);
      assert Weight(nodes, r, v) == 0.0;
    case Plus(x, y) =>
      DerivativeAdjoint(nodes, x, v);
      DerivativeAdjoint(nodes, y, v);
      forall p: nat ensures Derivative(nodes, r, p)
        == Delta(r, p) + Product(1.0, Derivative(nodes, x, p)) + Product(1.0, Derivative(nodes, y, p))
      {
        if p == r {
          assert Derivative(nodes, x, p) == 0.0 && Derivative(nodes, y, p) == 0.0;
        }
      }
      AdjointStep(nodes, r, v, x, y, 1.0, 1.0);
    case Times(x, y) =>
      DerivativeAdjoint(nodes, x, v);
      DerivativeAdjoint(nodes, y, v);
      var a, b := nodes[y].data, nodes[x].data;
      forall p: nat ensures Derivative(nodes, r, p)
        == Delta(r, p) + Product(a, Derivative(nodes, x, p)) + Product(b, Derivative(nodes, y, p))
      {
        if p == r {
          assert Derivative(nodes, x, p) == 0.0 && Derivative(nodes, y, p) == 0.0;
        }
      }
      AdjointStep(nodes, r, v, x, y, a, b);
    case Rectify(x) =>
      DerivativeAdjoint(nodes, x, v);
      var a := if nodes[x].data > 0.0 then 1.0 else 0.0;
      forall p: nat ensures Derivative(nodes, r, p)
        == Delta(r, p) + Product(a, Derivative(nodes, x, p)) + Product(0.0, Derivative(nodes, x, p))
      {
        if p == r {
          assert Derivative(nodes, x, p) == 0.0;
        }
      }
      AdjointStep(nodes, r, v, x, x, a, 0.0);
  }

  /** p |-> p's local derivative in v times x's entry for p. */
  function GradTerms(nodes: seq<Node>, x: seq<real>, v: nat): nat -> real
    requires WellFormed(nodes)
  {
    (p: nat) => Product(Weight(nodes, p, v), if p < |x| then x[p] else 0.0)
  }

  /**
   * x solves the reverse-mode equations for `root`: each entry is 1 at the
   * root, plus the sum over every node p of p's local derivative in it
   * times p's entry.
   */
  ghost predicate SolvesAdjoint(nodes: seq<Node>, root: nat, x: seq<real>)
    requires WellFormed(nodes)
  {
    |x| == |nodes| &&
    forall v :: 0 <= v < |x| ==> x[v] == Delta(root, v) + Sum(GradTerms(nodes, x, v), |nodes|)
  }

  /** The equations have one solution: node v's entry only depends on the entries of the nodes above it. */
  lemma {:induction false} AdjointUnique(nodes: seq<Node>, root: nat, x: seq<real>, y: seq<real>, m: nat)
    requires WellFormed(nodes) && SolvesAdjoint(nodes, root, x) && SolvesAdjoint(nodes, root, y)
    requires m <= |nodes|
    ensures forall v :: m <= v < |nodes| ==> x[v] == y[v]
    decreases |nodes| - m
  {
    if m < |nodes| {
      AdjointUnique(nodes, root, x, y, m + 1);
      forall p: nat | p < |nodes| ensures GradTerms(nodes, x, m)(p) == GradTerms(nodes, y, m)(p) {
        if p <= m {
          assert Weight(nodes, p, m) == 0.0;
        }
      }
      SumSame(GradTerms(nodes, x, m), GradTerms(nodes, y, m), |nodes|);
    }
  }

  /** d data[root] / d data[v] for every node v. */
  ghost function Derivatives(nodes: seq<Node>, root: nat): (d: seq<real>)
    requires WellFormed(nodes) && root < |nodes| && PowFreeReach(nodes, root)
  {
    seq(|nodes|, p requires 0 <= p < |nodes| => Derivative(nodes, root, p))
  }

  /** The forward derivatives of `root` solve the reverse-mode equations. */
  lemma DerivativesSolveAdjoint(nodes: seq<Node>, root: nat)
    requires WellFormed(nodes) && root < |nodes| && PowFreeReach(nodes, root)
    ensures SolvesAdjoint(nodes, root, Derivatives(nodes, root))
  {
    var d := Derivatives(nodes, root);
    forall v | 0 <= v < |d| ensures d[v] == Delta(root, v) + Sum(GradTerms(nodes, d, v), |nodes|) {
      DerivativeAdjoint(nodes, root, v);
      SumSame(DerivativeTerms(nodes, root, v), GradTerms(nodes, d, v), |nodes|);
    }
  }

  /** p |-> p's local derivative in v times h[p] for the nodes p recorded in o, 0 for the others. */
  ghost function OrderTerms(nodes: seq<Node>, h: seq<real>, o: seq<nat>, v: nat): nat -> real
    requires WellFormed(nodes)
  {
    (p: nat) => if p < |h| && p in Elems(o) then Product(Weight(nodes, p, v), h[p]) else 0.0
  }

  /** Recording one more node q adds q's term to the sum over the recorded nodes. */
  lemma OrderTermsStep(nodes: seq<Node>, h: seq<real>, o: seq<nat>, v: nat)
    requires WellFormed(nodes) && |h| == |nodes| && InArena(nodes, o) && PowFree(nodes, o) && NoDup(o) && |o| > 0
    ensures Sum(OrderTerms(nodes, h, o, v), |nodes|)
      == Sum(OrderTerms(nodes, h, o[..|o| - 1], v), |nodes|) + Contribution(nodes, o[|o| - 1], v, h[o[|o| - 1]])
  {
    var n := |nodes|;
    var before, q := o[..|o| - 1], o[|o| - 1];
    assert o == before + [q];
    assert Elems(o) == Elems(before) + {q};
    var single := (p: nat) => if p == q then Product(Weight(nodes, q, v), h[q]) else 0.0;
    forall p: nat | p < n
      ensures OrderTerms(nodes, h, o, v)(p) == OrderTerms(nodes, h, before, v)(p) + single(p)
    {
      if p == q {
        assert q !in Elems(before);
      }
    }
    SumAdd(OrderTerms(nodes, h, before, v), single, OrderTerms(nodes, h, o, v), n);
    SumSingle(single, q, n);
    assert Weight(nodes, q, v) == Local(nodes, q, v);
  }

  /** Summing over an order that records no node twice is summing over the nodes it records. */
  lemma {:induction false} InflowIsSum(nodes: seq<Node>, h: seq<real>, o: seq<nat>, v: nat)
    requires WellFormed(nodes) && |h| == |nodes| && InArena(nodes, o) && PowFree(nodes, o) && NoDup(o)
    ensures Inflow(nodes, h, o, v) == Sum(OrderTerms(nodes, h, o, v), |nodes|)
    decreases |o|
  {
    if o == [] {
      SumSingle(OrderTerms(nodes, h, o, v), |nodes|, |nodes|);
    } else {
      InflowStep(nodes, h, o, v);
      InflowIsSum(nodes, h, o[..|o| - 1], v);
      OrderTermsStep(nodes, h, o, v);
    }
  }

  /**
   * Reverse mode computes the derivatives: when the rules of the nodes
   * reachable from `root` run once each in a topological order, starting
   * from fresh grads with the root's grad set to 1, every node's grad ends
   * as d data[root] / d data[v].
   */
  lemma ReverseIsForward(nodes: seq<Node>, root: nat, o: seq<nat>)
    requires WellFormed(nodes) && root < |nodes| && PowFreeReach(nodes, root)
    requires Topological(nodes, o) && NoDup(o) && Elems(o) == Reach(nodes, root)
    ensures InArena(nodes, o) && PowFree(nodes, o)
    ensures forall v :: 0 <= v < |nodes| ==>
      Run(nodes, Zeros(|nodes|)[root := 1.0], o)[v] == Derivative(nodes, root, v)
  {
    var n := |nodes|;
    forall j | 0 <= j < |o| ensures o[j] < n && !nodes[o[j]].op.Power? {
      assert o[j] in Elems(o);
    }
    var g := Zeros(n)[root := 1.0];
    var f := Run(nodes, g, o);
    forall v | 0 <= v < n ensures f[v] == Delta(root, v) + Sum(GradTerms(nodes, f, v), n) {
      ChainRule(nodes, g, o, v);
      InflowIsSum(nodes, f, o, v);
      forall p: nat | p < n ensures OrderTerms(nodes, f, o, v)(p) == GradTerms(nodes, f, v)(p) {
        if p !in Elems(o) {
          UnreachableKeeps(nodes, root, g, o, p);
        }
      }
      SumSame(OrderTerms(nodes, f, o, v), GradTerms(nodes, f, v), n);
    }
    DerivativesSolveAdjoint(nodes, root);
    AdjointUnique(nodes, root, f, Derivatives(nodes, root), 0);
  }

  /**
   * What a backward pass over a topological order leaves: from fresh grads,
   * every node's derivative; a power node in reach stops it early.
   */
  lemma FreshRun(nodes: seq<Node>, root: nat, o: seq<nat>, g: seq<real>)
    requires WellFormed(nodes) && root < |nodes| && |g| == |nodes| && InArena(nodes, o)
    requires Topological(nodes, o) && NoDup(o) && Elems(o) == Reach(nodes, root)
    ensures g == Zeros(|nodes|) && PowFreeReach(nodes, root) ==>
      forall v :: 0 <= v < |nodes| ==>
        Run(nodes, g[root := 1.0], o[..FirstPow(nodes, o)])[v] == Derivative(nodes, root, v)
  {
    if g == Zeros(|nodes|) && PowFreeReach(nodes, root) {
      PowFreeElems(nodes, root, o);
      ReverseIsForward(nodes, root, o);
      assert o[..FirstPow(nodes, o)] == o;
    }
  }

  /**
   * From any starting grads, a pass over a topological order adds to each
   * grad, on top of what it held, the sum over the recorded nodes of their
   * local derivative in it times their final grad: grads accumulate.
   */
  lemma RunSolves(nodes: seq<Node>, g: seq<real>, o: seq<nat>, v: nat)
    requires WellFormed(nodes) && |g| == |nodes| && InArena(nodes, o) && PowFree(nodes, o)
    requires Topological(nodes, o) && NoDup(o) && v < |nodes|
    ensures Run(nodes, g, o)[v] == g[v] + Sum(OrderTerms(nodes, Run(nodes, g, o), o, v), |nodes|)
  {
    ChainRule(nodes, g, o, v);
    InflowIsSum(nodes, Run(nodes, g, o), o, v);
  }
}
