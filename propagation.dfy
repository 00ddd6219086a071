/**
 * Running the nodes' backward rules one after another over a recorded
 * order, as the final loop of `backward` does, and what the resulting
 * gradients satisfy.
 */
module Propagation {
  import opened Nodes
  import opened Traversal

  /** Every entry names a node of the arena. */
  predicate InArena(nodes: seq<Node>, o: seq<nat>)
  {
    forall j :: 0 <= j < |o| ==> o[j] < |nodes|
  }

  /** An order of nodes reachable from `root` names nodes of the arena. */
  lemma ReachInArena(nodes: seq<Node>, root: nat, o: seq<nat>)
    requires WellFormed(nodes) && root < |nodes| && Elems(o) <= Reach(nodes, root)
    ensures InArena(nodes, o)
  {
    forall j | 0 <= j < |o| ensures o[j] < |nodes| {
      assert o[j] in Elems(o);
    }
  }

  /** n fresh grads. */
  function Zeros(n: nat): (z: seq<real>)
    ensures |z| == n && forall i :: 0 <= i < n ==> z[i] == 0.0
  {
    seq(n, _ => 0.0)
  }

  /** No entry is a power node. */
  ghost predicate PowFree(nodes: seq<Node>, o: seq<nat>)
    requires InArena(nodes, o)
  {
    forall j :: 0 <= j < |o| ==> !nodes[o[j]].op.Power?
  }

  /** An order that records exactly the nodes reachable from `root` is free of power nodes when that reach is. */
  lemma PowFreeElems(nodes: seq<Node>, root: nat, o: seq<nat>)
    requires WellFormed(nodes) && root < |nodes| && InArena(nodes, o) && Elems(o) == Reach(nodes, root)
    ensures PowFree(nodes, o) <==> PowFreeReach(nodes, root)
  {
    if PowFree(nodes, o) {
      forall x | x in Reach(nodes, root) ensures !nodes[x].op.Power? {
        var j :| 0 <= j < |o| && o[j] == x;
      }
    }
    if PowFreeReach(nodes, root) {
      forall j | 0 <= j < |o| ensures !nodes[o[j]].op.Power? {
        assert o[j] in Elems(o);
      }
    }
  }

  /** The position of the first power node in `o`, or |o| when there is none. */
  function FirstPow(nodes: seq<Node>, o: seq<nat>): (k: nat)
    requires InArena(nodes, o)
    ensures k <= |o| && PowFree(nodes, o[..k])
    ensures k < |o| ==> nodes[o[k]].op.Power?
    ensures k == |o| <==> PowFree(nodes, o)
  {
    if o == [] then 0
    else if nodes[o[0]].op.Power? then 0
    else
      var k := 1 + FirstPow(nodes, o[1..]);
      assert forall j :: 1 <= j < k ==> o[..k][j] == o[1..][..k - 1][j - 1];
      assert forall j :: 1 <= j < |o| ==> o[j] == o[1..][j - 1];
      k
  }

  /** A power node at or before the first power node's position is the first one. */
  lemma FirstPowAt(nodes: seq<Node>, o: seq<nat>, k: nat)
    requires InArena(nodes, o) && k <= FirstPow(nodes, o) && k < |o| && nodes[o[k]].op.Power?
    ensures FirstPow(nodes, o) == k
  {
  }

  lemma PrefixPowFree(nodes: seq<Node>, o: seq<nat>, m: nat)
    requires InArena(nodes, o) && PowFree(nodes, o) && m <= |o|
    ensures InArena(nodes, o[..m]) && PowFree(nodes, o[..m])
  {
  }

  /** The gradients after the rules of o[0], o[1], ... have run on g, in that order. */
  function Run(nodes: seq<Node>, g: seq<real>, o: seq<nat>): (r: seq<real>)
    requires WellFormed(nodes) && |g| == |nodes| && InArena(nodes, o) && PowFree(nodes, o)
    ensures |r| == |g|
    decreases |o|
  {
    if o == [] then g
    else Rule(nodes, Run(nodes, g, o[..|o| - 1]), o[|o| - 1])
  }

  /** Running one more entry of o is one more rule on top of the run of the prefix before it. */
  lemma RunExtend(nodes: seq<Node>, g: seq<real>, o: seq<nat>, k: nat)
    requires WellFormed(nodes) && |g| == |nodes| && InArena(nodes, o) && k < |o|
    requires PowFree(nodes, o[..k]) && !nodes[o[k]].op.Power?
    ensures InArena(nodes, o[..k + 1]) && PowFree(nodes, o[..k + 1])
    ensures Run(nodes, g, o[..k + 1]) == Rule(nodes, Run(nodes, g, o[..k]), o[k])
  {
    assert o[..k + 1][..k] == o[..k];
  }

  /**
   * What the rules add into v: the sum, over the recorded nodes in order, of
   * each one's local derivative times its grad at the moment its rule ran.
   */
  ghost function Added(nodes: seq<Node>, g: seq<real>, o: seq<nat>, v: nat): real
    requires WellFormed(nodes) && |g| == |nodes| && InArena(nodes, o) && PowFree(nodes, o)
    decreases |o|
  {
    if o == [] then 0.0
    else
      var before := o[..|o| - 1];
      var p := o[|o| - 1];
      Added(nodes, g, before, v) + Contribution(nodes, p, v, Run(nodes, g, before)[p])
  }

  /** Gradients only accumulate: every grad ends as its start value plus what the rules added. */
  lemma {:induction false} RunAccumulates(nodes: seq<Node>, g: seq<real>, o: seq<nat>, v: nat)
    requires WellFormed(nodes) && |g| == |nodes| && InArena(nodes, o) && PowFree(nodes, o)
    requires v < |nodes|
    ensures Run(nodes, g, o)[v] == g[v] + Added(nodes, g, o, v)
    decreases |o|
  {
    if o != [] {
      RunAccumulates(nodes, g, o[..|o| - 1], v);
      RuleAdds(nodes, Run(nodes, g, o[..|o| - 1]), o[|o| - 1]);
    }
  }

  /** A node that no recorded rule writes into keeps its grad. */
  lemma {:induction false} RunKeeps(nodes: seq<Node>, g: seq<real>, o: seq<nat>, v: nat)
    requires WellFormed(nodes) && |g| == |nodes| && InArena(nodes, o) && PowFree(nodes, o)
    requires v < |nodes|
    requires forall j :: 0 <= j < |o| ==> !IsChild(nodes, o[j], v)
    ensures Run(nodes, g, o)[v] == g[v]
    decreases |o|
  {
    if o != [] {
      RunKeeps(nodes, g, o[..|o| - 1], v);
      RuleAdds(nodes, Run(nodes, g, o[..|o| - 1]), o[|o| - 1]);
    }
  }

  /** The root keeps its grad: no node recorded from it (all at or below it) has it as an operand. */
  lemma RootKeeps(nodes: seq<Node>, root: nat, g: seq<real>, o: seq<nat>)
    requires WellFormed(nodes) && root < |nodes| && |g| == |nodes|
    requires Elems(o) <= Reach(nodes, root) && InArena(nodes, o) && PowFree(nodes, o)
    ensures Run(nodes, g, o)[root] == g[root]
  {
    forall j | 0 <= j < |o| ensures !IsChild(nodes, o[j], root) {
      assert o[j] in Elems(o);
    }
    RunKeeps(nodes, g, o, root);
  }

  /** A node not reachable from the root keeps its grad. */
  lemma UnreachableKeeps(nodes: seq<Node>, root: nat, g: seq<real>, o: seq<nat>, v: nat)
    requires WellFormed(nodes) && root < |nodes| && |g| == |nodes| && v < |nodes|
    requires Elems(o) <= Reach(nodes, root) && InArena(nodes, o) && PowFree(nodes, o)
    requires v !in Reach(nodes, root)
    ensures Run(nodes, g, o)[v] == g[v]
  {
    forall j | 0 <= j < |o| ensures !IsChild(nodes, o[j], v) {
      assert o[j] in Elems(o);
      if IsChild(nodes, o[j], v) {
        ReachTransitive(nodes, root, o[j]);
        ReachChild(nodes, o[j], v);
      }
    }
    RunKeeps(nodes, g, o, v);
  }

  /** Running two orders one after the other is running their concatenation. */
  lemma {:induction false} RunConcat(nodes: seq<Node>, g: seq<real>, a: seq<nat>, b: seq<nat>)
    requires WellFormed(nodes) && |g| == |nodes|
    requires InArena(nodes, a + b) && PowFree(nodes, a + b)
    ensures InArena(nodes, a) && PowFree(nodes, a) && InArena(nodes, b) && PowFree(nodes, b)
    ensures Run(nodes, g, a + b) == Run(nodes, Run(nodes, g, a), b)
    decreases |b|
  {
    assert forall j :: 0 <= j < |a| ==> a[j] == (a + b)[j];
    assert forall j :: 0 <= j < |b| ==> b[j] == (a + b)[|a| + j];
    if b != [] {
      var b' := b[..|b| - 1];
      assert (a + b)[..|a + b| - 1] == a + b';
      RunConcat(nodes, g, a, b');
    } else {
      assert a + b == a;
    }
  }

  /**
   * In a topological order, the grad a node's rule reads is already final:
   * every rule that writes into it has run before it.
   */
  lemma Settled(nodes: seq<Node>, g: seq<real>, o: seq<nat>, j: nat)
    requires WellFormed(nodes) && |g| == |nodes| && InArena(nodes, o) && PowFree(nodes, o)
    requires Topological(nodes, o) && j < |o|
    ensures Run(nodes, g, o[..j])[o[j]] == Run(nodes, g, o)[o[j]]
  {
    assert o == o[..j] + o[j..];
    RunConcat(nodes, g, o[..j], o[j..]);
    forall i | 0 <= i < |o[j..]| ensures !IsChild(nodes, o[j..][i], o[j]) {
      assert o[j..][i] == o[j + i];
    }
    RunKeeps(nodes, Run(nodes, g, o[..j]), o[j..], o[j]);
  }

  /** The sum over the recorded nodes p of the local derivative of p in v times p's grad in h. */
  ghost function Inflow(nodes: seq<Node>, h: seq<real>, o: seq<nat>, v: nat): real
    requires WellFormed(nodes) && |h| == |nodes| && InArena(nodes, o) && PowFree(nodes, o)
    decreases |o|
  {
    if o == [] then 0.0
    else
      var p := o[|o| - 1];
      Inflow(nodes, h, o[..|o| - 1], v) + Contribution(nodes, p, v, h[p])
  }

  lemma AddedStep(nodes: seq<Node>, g: seq<real>, q: seq<nat>, v: nat)
    requires WellFormed(nodes) && |g| == |nodes| && InArena(nodes, q) && PowFree(nodes, q) && |q| > 0
    ensures InArena(nodes, q[..|q| - 1]) && PowFree(nodes, q[..|q| - 1])
    ensures Added(nodes, g, q, v)
      == Added(nodes, g, q[..|q| - 1], v) + Contribution(nodes, q[|q| - 1], v, Run(nodes, g, q[..|q| - 1])[q[|q| - 1]])
  {
  }

  lemma InflowStep(nodes: seq<Node>, h: seq<real>, q: seq<nat>, v: nat)
    requires WellFormed(nodes) && |h| == |nodes| && InArena(nodes, q) && PowFree(nodes, q) && |q| > 0
    ensures InArena(nodes, q[..|q| - 1]) && PowFree(nodes, q[..|q| - 1])
    ensures Inflow(nodes, h, q, v) == Inflow(nodes, h, q[..|q| - 1], v) + Contribution(nodes, q[|q| - 1], v, h[q[|q| - 1]])
  {
  }

  lemma {:induction false} AddedIsInflow(nodes: seq<Node>, g: seq<real>, o: seq<nat>, final: seq<real>, m: nat, v: nat)
    requires WellFormed(nodes) && |g| == |nodes| && InArena(nodes, o) && PowFree(nodes, o)
    requires m <= |o| && |final| == |nodes|
    requires forall j :: 0 <= j < m ==> Run(nodes, g, o[..j])[o[j]] == final[o[j]]
    ensures InArena(nodes, o[..m]) && PowFree(nodes, o[..m])
    ensures Added(nodes, g, o[..m], v) == Inflow(nodes, final, o[..m], v)
  {
    PrefixPowFree(nodes, o, m);
    if m > 0 {
      var q, before, p := o[..m], o[..m - 1], o[m - 1];
      assert q[..|q| - 1] == before && q[|q| - 1] == p;
      AddedStep(nodes, g, q, v);
      InflowStep(nodes, final, q, v);
      AddedIsInflow(nodes, g, o, final, m - 1, v);
      assert Run(nodes, g, before)[p] == final[p];
    }
  }

  /**
   * The chain rule, reverse mode: when the rules run in a topological order,
   * every node's final grad is its starting grad plus, for every recorded
   * node p, p's local derivative in it times p's final grad.
   */
  lemma ChainRule(nodes: seq<Node>, g: seq<real>, o: seq<nat>, v: nat)
    requires WellFormed(nodes) && |g| == |nodes| && InArena(nodes, o) && PowFree(nodes, o)
    requires Topological(nodes, o) && v < |nodes|
    ensures Run(nodes, g, o)[v] == g[v] + Inflow(nodes, Run(nodes, g, o), o, v)
  {
    RunAccumulates(nodes, g, o, v);
    forall j | 0 <= j < |o| ensures Run(nodes, g, o[..j])[o[j]] == Run(nodes, g, o)[o[j]] {
      Settled(nodes, g, o, j);
    }
    AddedIsInflow(nodes, g, o, Run(nodes, g, o), |o|, v);
    assert o[..|o|] == o;
  }
}
