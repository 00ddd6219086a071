# scalargrad engine, modelled in Dafny

This project models `scalargrad/engine.py`, a scalar reverse-mode automatic
differentiation engine. A `Value` holds a number (`data`), a gradient (`grad`),
the set of operands it was built from (`prev`) and a backward closure. Each of
`+`, `*`, unary `-`, binary `-`, `**` and `relu` builds a new `Value` whose
closure adds the local derivative times the node's own grad into its operands'
grads. `backward()` records the nodes reachable from the root with a
depth-first pre-order walk, sets the root's grad to 1 and calls the recorded
closures in the recorded order.

How the model is laid out:

- `nodes.dfy` (module `Nodes`) holds the nodes.
  - A node is an arena slot `Node(data, op)`.
  - The closure is replaced by the operation tag `Op`, whose operands are arena indices.
  - An operand is always allocated before the node that uses it, so the graph is acyclic.
  - `Rule` is what a closure does to the gradient vector. `Local` is the node's local derivative.
  - `RuleAdds` states that every rule adds `Local * grad` to each operand's grad and changes nothing else.
- `traversal.dfy` (module `Traversal`) holds the walk.
  - `BuildOrderDfs` is `build_order_dfs`. Iteration over the `prev` set picks operands nondeterministically.
  - Also here: the post-order walk, and the proof that the pre-order walk is topological on tree-shaped graphs.
- `propagation.dfy` (module `Propagation`) holds `Run`: the rules applied in a given order.
  - Grads only accumulate.
  - The root's grad and the grads of unreachable nodes are left alone.
  - When the order is topological, the reverse-mode chain rule holds (`ChainRule`).
- `calculus.dfy` (module `Calculus`) holds the reference `Derivative`: forward-mode d data[root] / d data[v], by the chain rule through operands.
  - It proves the adjoint identity.
  - It proves that the adjoint equations have one solution.
  - Together these give `ReverseIsForward`: a backward pass over a topological order, started from fresh grads, leaves every grad equal to the forward derivative.
- `engine.dfy` (module `Engine`) holds the `Value` API as the class `Graph`.
  - The fields are `nodes` and `grad`. Operations append to `nodes` with grad 0.
  - `Backward` updates `grad` in place.
  - `BackwardTopological` is the corrected traversal (see Findings).
- `scenarios.dfy` (module `Scenarios`) holds concrete graphs built through the API, with the data and gradients they end with. It also holds the shared-operand counterexample.

Two places where the code departs from what it evidently intends; the model follows the code:

- **Traversal order.** The list the walk builds is named `topological_order`. With shared nodes, the pre-order walk need not produce a topological order (see Findings).
- **Power rule.** The `**` closure is written to add k * a^(k-1) * out.grad into a's grad. It evaluates `self.data ** (other - 1)`: a float raised to a `Value`. `Value` has no `__rpow__`, so this raises. The model's `ApplyRule` fails (`ok == false`) on a power node and writes no grad.

## Model

| member | source | states |
|---|---|---|
| Engine.Graph.NewValue | scalargrad/engine.py:4-10 | a new node is appended with the given data and operation; its grad is 0 |
| Engine.Graph.Lift | scalargrad/engine.py:16 | a plain-number operand becomes a new leaf holding that number; an existing node is used as is |
| Engine.Graph.Add | scalargrad/engine.py:15-17 | the result node holds the sum of the operands' data, with prev = the two operands; nothing existing changes |
| Engine.Graph.Mul | scalargrad/engine.py:27-29 | the result node holds the product of the operands' data, with prev = the two operands; nothing existing changes |
| Engine.Graph.Neg | scalargrad/engine.py:39-40 | -a is built as a * -1: a leaf -1 and a product node whose data is -a.data |
| Engine.Graph.Sub | scalargrad/engine.py:53-54 | a - b is built as a + (-b); its data is a.data - b.data; a plain number is negated before it is lifted, a node through Neg |
| Engine.Graph.Pow | scalargrad/engine.py:56-58 | a ** k lifts k to a leaf and holds a.data to the k-th power, with prev = {a, k} |
| Engine.Graph.Relu | scalargrad/engine.py:73-74 | the result holds 0 for a negative input and the input otherwise; it is non-negative and at least the input |
| Engine.Graph.ApplyRule | scalargrad/engine.py:60-61 | a power node's closure raises before writing, so no grad changes; every other node's closure leaves the grads as `Rule` describes |
| Engine.Graph.RunRules | scalargrad/engine.py:98-99 | the closures run in the given order; the run stops at the first one that raises; the grads are the rules of the prefix before it, applied in order |
| Engine.Graph.Backward | scalargrad/engine.py:83-99 | the recorded order is a depth-first pre-order of exactly the reachable nodes: every entry after the first has an earlier user, and each node is followed at once by the nodes it reaches that were not recorded before it; the root's grad ends 1; unreachable grads are unchanged; the grads are the recorded rules applied to the old grads; on a tree started from zero grads every grad is the derivative of the root |
| Engine.Graph.BackwardTopological | scalargrad/engine.py:83-99 | with the reversed post-order, every grad started from zero ends as d root / d node, on every acyclic graph |
| Nodes.Reach | scalargrad/engine.py:87-92 | the nodes reachable through prev include the start, and all lie at or below it in the arena |
| Nodes.Local | scalargrad/engine.py:19-21 | a node's local derivative in v is non-zero only when v is in its prev, and only for nodes allocated before it |
| Nodes.RuleAdds | scalargrad/engine.py:31-33 | every closure adds its local derivative times its own grad into each grad and changes nothing else |
| Nodes.LeafRule | scalargrad/engine.py:9 | a leaf's closure leaves the grad vector as it was |
| Nodes.PlusRule | scalargrad/engine.py:19-21 | the + closure adds out.grad to each operand's grad, twice when both operands are the same node, and changes no other grad |
| Nodes.TimesRule | scalargrad/engine.py:31-33 | the * closure adds the other operand's data times out.grad to each operand's grad, 2 * data * out.grad when both operands are the same node, and changes no other grad |
| Nodes.RectifyRule | scalargrad/engine.py:76-77 | the relu closure adds out.grad to the input's grad when the input's data is positive and 0 otherwise, and changes no other grad |
| Traversal.BuildOrderDfs | scalargrad/engine.py:87-92 | visited grows by exactly the node's reach; the order records each newly visited node once, the node first, every later entry after a node whose prev holds it, and each recorded node followed at once by the part of its reach not recorded before it; an already visited node changes nothing |
| Traversal.TreeOrderTopological | scalargrad/engine.py:87-92 | when no reachable node has two users, the pre-order walk runs every node's rule after all of its users' rules |
| Traversal.BuildPostOrder | scalargrad/engine.py:87-92 | the walk that records a node after its operands records each reachable node once, every operand before its users |
| Traversal.ReversedPostOrder | scalargrad/engine.py:98 | reading a post-order backwards gives a topological order with the same nodes |
| Propagation.RunAccumulates | scalargrad/engine.py:98-99 | after a run every grad is its start value plus what the rules added (`+=`, never overwritten) |
| Propagation.RunKeeps | scalargrad/engine.py:98-99 | a grad that no run rule writes into is unchanged |
| Propagation.RootKeeps | scalargrad/engine.py:96-99 | no rule of a node reachable from the root writes the root's grad, so it keeps the value set before the loop |
| Propagation.UnreachableKeeps | scalargrad/engine.py:96-99 | grads of nodes not reachable from the root are unchanged by the run |
| Propagation.ChainRule | scalargrad/engine.py:98-99 | in a topological order every final grad is its start plus the sum over recorded nodes of local derivative times their final grad |
| Calculus.Derivative | scalargrad/engine.py:15-81 | the forward derivative of the root in a node is 0 for a node it does not reach |
| Calculus.DerivativeAdjoint | scalargrad/engine.py:15-81 | d r / d v is 1 at v = r, plus the sum over all nodes p of p's local derivative in v times d r / d p |
| Calculus.AdjointUnique | scalargrad/engine.py:83-99 | two gradient vectors that both solve the reverse-mode equations agree |
| Calculus.DerivativesSolveAdjoint | scalargrad/engine.py:83-99 | the forward derivatives solve the reverse-mode equations |
| Calculus.InflowIsSum | scalargrad/engine.py:98-99 | summing the rules' contributions along an order without repeats is summing over the nodes it records |
| Calculus.RunSolves | scalargrad/engine.py:98-99 | from any start grads, a pass over a topological order adds the sum of local derivative times final grad, so a second pass accumulates again |
| Calculus.ReverseIsForward | scalargrad/engine.py:83-99 | running the reachable nodes' rules once each in a topological order, from zero grads with the root's set to 1, leaves every grad equal to d root / d node |
| Calculus.FreshRun | scalargrad/engine.py:83-99 | the same for the prefix that runs before a power node, when no power node is reachable |
| Scenarios.AddGrads | scalargrad/engine.py:15-25 | 2 + 3 holds 5, and both operands get grad 1 |
| Scenarios.MulGrads | scalargrad/engine.py:27-37 | 2 * 3 holds 6; the grads are 3 and 2 |
| Scenarios.SelfAddGrads | scalargrad/engine.py:15-21 | a + a holds 2a and a's grad is 2 |
| Scenarios.ReluGrads | scalargrad/engine.py:73-81 | relu(x) holds max(x, 0); x's grad is 1 for x > 0 and 0 otherwise |
| Scenarios.NegGrads | scalargrad/engine.py:39-40 | -x holds -x and x's grad is -1 |
| Scenarios.SubGrads | scalargrad/engine.py:53-54 | x - y holds x - y; the grads are 1 and -1 |
| Scenarios.CompositeGrads | scalargrad/engine.py:83-99 | (2 * -3 + 10) * -2 holds -8, with grads 6, -4, -2 and 4 |
| Scenarios.PowBackwardRaises | scalargrad/engine.py:56-65 | x ** 2 holds x * x; backward raises at the power rule, leaving x's grad 0 and the root's 1 |
| Scenarios.SumPass | scalargrad/engine.py:98-99 | a pass over a + b adds the root's grad to both operands, whatever the grads held |
| Scenarios.SecondCallAccumulates | scalargrad/engine.py:96-99 | a second backward without resetting grads sets the root to 1 again and grows both operands' grads to 2 |
| Scenarios.SharedPreorder | scalargrad/engine.py:87-92 | on b = a + 1, d = b * c, R = b + d the walk may record R, b, a, 1, d, c: a depth-first pre-order, each node followed at once by the rest of its reach, that is not topological |
| Scenarios.SharedRun | scalargrad/engine.py:98-99 | in that order a's grad ends as its start plus b's and R's start grads; d's contribution to b never reaches a |
| Scenarios.PreorderCounterexample | scalargrad/engine.py:83-99 | backward in that order leaves a's grad 1, while d R / d a is 1 + c |
| Scenarios.SharedOperandPreorder | scalargrad/engine.py:83-99 | built through the API: when the walk records R, b, a, 1, d, c, a's grad ends 1 |
| Scenarios.SharedOperandTopological | scalargrad/engine.py:83-99 | the same graph with the corrected traversal gives a's grad 1 + c |

## Left out

- Floating point: data and grads are mathematical reals, with no rounding, infinities or NaN.
- The `**` rule's gradient: as written it raises `TypeError`, so the model records the failure (`ok == false`) instead of a formula.
- Engine.Graph.NewValue: building a node directly with `Value(data, _children, _op)`, that is with operands but the no-op closure of scalargrad/engine.py:9, is not modelled. `NewValue` with an operation other than `Leaf` stands only for the allocation inside `__add__`, `__mul__`, `__pow__` and `relu`, which then installs that operation's closure.
- Engine.Graph.Pow: models natural-number exponents only. A fractional or negative exponent, and a `Value` exponent, are not modelled.
- `__truediv__` and `__rtruediv__` are not modelled. With a plain-number divisor, `a / x` computes `x ** -1` in Python arithmetic and returns `a * (1 / x)`: an ordinary product with a lifted leaf, the same as `Mul(a, Num(1.0 / x))`. Only a `Value` divisor goes through `Value.__pow__`, whose closure raises when `backward` runs. `__rtruediv__` (scalargrad/engine.py:71) evaluates `other / self`; with a plain-number `other` Python dispatches back to `__rtruediv__`, so it recurses without end.
- `__radd__`, `__rmul__` and `__rsub__` are not modelled: a plain number on the left of an operator. Also, `__rsub__` as written returns `self - other`, not `other - self`.
- `__repr__` and `label` are not modelled: they only display a node.
- Python object identity is not modelled: a node is its arena index. `prev` is the set of distinct operand indices.
- Iteration order over `prev` (a Python set) is not modelled: the walk picks operands nondeterministically, and every property holds for every choice.
- Python's recursion limit in `build_order_dfs` is not modelled.
- Mutation of `data` after construction is not modelled. The arena's nodes never change.
- The closures themselves are not modelled: they are replaced by dispatch on the operation tag. A closure reads an operand's `data` when it runs, and data never changes, so the values are the same.
- Engine.Graph.Backward: the grads equal the derivatives only for tree-shaped graphs. On graphs with shared nodes the source's order is not topological, and the result can differ (see Findings).
- Scenarios.SharedOperandPreorder: states a's grad only for the walk that takes b before d, the counterexample order.

## Findings

| source | as written | input that shows it | evidently intended | confidence | as-written member | corrected member |
|---|---|---|---|---|---|---|
| scalargrad/engine.py:83-99 | the closures run in DFS pre-order from the root, which can run a node's rule before the rule of another of its users | a = x, b = a + 1, c = y, d = b * c, R = b + d, with R's prev yielding b before d: order R, b, a, 1, d, c; a.grad ends 1 | every node's rule runs after all of its users' rules (reverse topological order), so a.grad = dR/da = 1 + c | not executed | Scenarios.PreorderCounterexample | Engine.Graph.BackwardTopological |
