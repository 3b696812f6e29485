# APPR push solver

This project models the approximate personalised PageRank solver of Andersen, Chung and Lang (FOCS 2006), as implemented in LocalCommunities. The MEX entry point is `[p, flag, r] = APPR(alpha, epsilon, seed, W, d)`. The solver works as follows:

- It copies the seed into the residual vector `r`.
- It zeroes the estimate vector `p`.
- It queues every node whose residual exceeds `epsilon*d[i]`, in increasing index order.
- It then calls `push` while the queue is non-empty and fewer than `MAXITER` (1000000) pushes have run.

A push pops the front node. If the node's residual is still above its threshold, the push:

1. adds `alpha*r_node` to `p[node]`;
2. keeps `(1-alpha)*r_node/2` as the node's residual, re-queueing the node if that is still above threshold;
3. walks the node's column of the compressed-sparse-column matrix `W`. Along entry `i` it adds `(1-alpha)*r_node*W.val[i]/(2*d[node])` to the residual of `W.row[i]`. It queues that target when this delta carried it over its threshold.

If the residual is not above its threshold, the pop is stale and changes nothing else. The flag returned is `iter == MAXITER`.

The algorithm appears twice in the repository, with the same statements:

- `ACLcut/APPR/APPR/APPR.cpp`: `push` at 77-97, the driver at 28-71.
- `APPR/main.cpp`: `push` at 66-86, the driver at 21-62.

The two drivers differ only in the order of independent declarations: `main.cpp` declares the queue before allocating `p`. Line for line:

| step | `APPR.cpp` | `main.cpp` |
|---|---|---|
| `r = seed` | 31 | 28 |
| zero `p` | 42-45 | 37-40 |
| queue loop | 50-54 | 43-47 |
| driver loop | 58-62 | 49-54 |
| flag | 67 | 58 |
| pop | 78-79 | 67-68 |
| commit | 80-86 | 69-75 |
| column loop | 88-95 | 77-84 |

The model is written once. Some rows below cite one file and some the other.

Modules:

- `Csc`: the sparse matrix (`col`, `row`, `val`), its validity and its column sums.
- `Vectors`: sums and orderings of dense vectors.
- `PushModel`: the solver as functions on values:
  - `EntryStep` is one entry of the column loop, `Scatter` the whole loop, `Commit` the commit step and `PushStep` one call of `push`;
  - `InitialQueue` and `InitState` build the state before the loop;
  - `Iterate` is the driver loop and `ApprSpec` the whole computation.
- `Appr`: the same computation written imperatively. `p` and `r` are arrays updated in place. Each method is proved equal to the value it stands for: a `PushModel` function, the seed, or `Vectors.Zeros`.
- `PushLemmas` and `RunLemmas`: what one push and a whole run guarantee.
- `Scenarios`: small concrete runs.

Arithmetic is on exact reals.

On mass: a push moves mass between `p` and `r`, so the quantity it keeps is `sum(p) + sum(r)`. That quantity is unchanged exactly when `d[node]` equals the weight of the node's column (`PushLemmas.PushStepConservesIff`). When every degree matches, a whole run keeps `sum(p) + sum(r) == sum(seed)` (`RunLemmas.ApprConservesMass`). The degree-weighted sum `sum(p[i]*d[i]) + sum(r)` is not kept by this code: `Scenarios.SelfLoopFirstPush` shows it rising from 1 to 1.5 after a single push. The model follows the code.

## Model

| member | source | states |
|---|---|---|
| PushModel.EntryStep | ACLcut/APPR/APPR/APPR.cpp:89-94 | One entry of the column loop leaves p alone. It adds exactly the entry's delta to the target's residual and changes no other residual. The queue is either unchanged or has that target appended. |
| PushLemmas.EntryStepQueue | ACLcut/APPR/APPR/APPR.cpp:91-94 | The loop's test 0 < excess <= delta appends the target exactly when this delta carried its residual from at or below its threshold to above it. |
| PushModel.Scatter | ACLcut/APPR/APPR/APPR.cpp:88-95 | The column loop leaves p unchanged and keeps every vector of length N and every queued index a node. |
| PushModel.Commit | ACLcut/APPR/APPR/APPR.cpp:78-86 | Popping, committing and re-queueing keeps the state well-shaped: vectors of length N and queue entries below N. |
| PushModel.PushStep | ACLcut/APPR/APPR/APPR.cpp:77-97 | One push keeps vectors of length N and queue entries below N. |
| PushModel.InitialQueue | ACLcut/APPR/APPR/APPR.cpp:49-54 | The initial queue holds node i exactly when r[i] > epsilon*d[i], each node once, in strictly increasing order. |
| PushModel.InitState | ACLcut/APPR/APPR/APPR.cpp:30-54 | Before the loop, p is all zeros and r equals the seed. The queue holds exactly the above-threshold nodes in increasing order, so every above-threshold node is queued. |
| PushModel.ApprSpec | ACLcut/APPR/APPR/APPR.cpp:30-67 | The outputs are the last p and r of the driver loop run from the initial state, and the flag is iter == maxIter. Both vectors have length N, and a false flag means the loop stopped with an empty queue. |
| PushModel.Iterate | ACLcut/APPR/APPR/APPR.cpp:58-62 | The driver loop runs between iter and maxIter pushes. It stops with an empty queue or with the count at maxIter. |
| Appr.SpreadEntry | ACLcut/APPR/APPR/APPR.cpp:89-94 | The in-place entry step leaves r and the queue as EntryStep computes them. |
| Appr.SpreadColumn | ACLcut/APPR/APPR/APPR.cpp:88-95 | The in-place column loop leaves r and the queue as Scatter computes them. |
| Appr.Push | ACLcut/APPR/APPR/APPR.cpp:77-97 | The in-place push leaves p, r and the queue equal to PushStep of the old state. |
| Appr.CopyOf | ACLcut/APPR/APPR/APPR.cpp:31 | r is a fresh array equal to the seed. |
| Appr.NewZeros | ACLcut/APPR/APPR/APPR.cpp:42-45 | p is a fresh array of N zeros. |
| Appr.InitialiseQueue | ACLcut/APPR/APPR/APPR.cpp:49-54 | The queue-building loop returns InitialQueue of r: the above-threshold nodes in increasing order. |
| Appr.Compute | ACLcut/APPR/APPR/APPR.cpp:28-71 | Returns fresh p and r with [p, flag, r] equal to ApprSpec. When flag is false, every r[i] is at or below epsilon*d[i]. |
| PushLemmas.PositiveCommit | ACLcut/APPR/APPR/APPR.cpp:80-83 | For 0 < alpha < 1 and epsilon > 0, an above-threshold residual is positive. Its committed part alpha*r and retained part (1-alpha)*r/2 are then positive too. |
| PushLemmas.ScatterResidualAt | APPR/main.cpp:77-84 | After the column loop, each residual equals its old value plus the deltas of the entries whose row is that node. |
| PushLemmas.ScatterCovered | APPR/main.cpp:77-84 | The column loop keeps the invariant that every above-threshold node is in the queue. |
| PushLemmas.ScatterQueue | APPR/main.cpp:81-83 | The column loop keeps the queue as a prefix and appends at most one entry per stored entry. Every appended node is a row index of the scanned entries. |
| PushLemmas.PushStepCovered | APPR/main.cpp:66-86 | One push preserves the invariant that every node above threshold is in the queue. This covers both the stale and the active case. |
| PushLemmas.PushStepEstimate | APPR/main.cpp:67-71 | A stale pop only drops the front entry. An active push adds alpha*r_node to p[node] and changes no other entry of p. For admissible parameters p never decreases and p[node] strictly increases. |
| PushLemmas.PushStepResidual | APPR/main.cpp:72-84 | After an active push, the residual of t is its old value plus its inflow from the node's column. For the node itself the old value is replaced by (1-alpha)*r_node/2. A residual neither the node nor its column touches is unchanged. |
| PushLemmas.PushStepQueue | APPR/main.cpp:67-83 | After a push, the queue starts with the old queue minus its front. Next comes the node, exactly when it was active and its retained residual is still above threshold. A stale pop appends nothing else. An active push appends at most one entry per column entry, all targets of the column. |
| PushLemmas.DeltaSumClosed | APPR/main.cpp:79 | The deltas of a range of entries sum to (1-alpha)*r_node*(their weight)/(2*d[node]). |
| PushLemmas.ScatterSum | APPR/main.cpp:77-84 | The column loop raises sum(r) by exactly the sum of its deltas. |
| PushLemmas.PushStepMass | APPR/main.cpp:69-84 | A stale pop leaves sum(p)+sum(r) unchanged. An active push changes it by (1-alpha)*r_node/2 * (colsum(node)/d[node] - 1). |
| PushLemmas.PushStepIsolatedLoss | APPR/main.cpp:72 | Pushing a node whose column weighs nothing loses its retained half, (1-alpha)*r_node/2, from sum(p)+sum(r). |
| PushLemmas.MassChangeZeroIff | APPR/main.cpp:79 | The mass change of a push is zero exactly when the column weight equals the degree, given a non-zero retained part. |
| PushLemmas.PushStepConservesIff | APPR/main.cpp:69-84 | For admissible parameters an active push keeps sum(p)+sum(r) exactly when d[node] equals the node's column sum, in both directions. |
| PushLemmas.ScatterNonNegative | APPR/main.cpp:77-80 | With non-negative weights, alpha <= 1 and a non-negative r_node, the column loop keeps r non-negative. |
| PushLemmas.PushStepNonNegative | APPR/main.cpp:69-84 | With non-negative weights and 0 <= alpha <= 1, a push keeps p and r non-negative. |
| RunLemmas.IterateCovered | APPR/main.cpp:49-54 | Every above-threshold node stays queued through any number of pushes. |
| RunLemmas.ApprConverged | APPR/main.cpp:49-58 | At most maxIter pushes run and the flag equals iter == maxIter. A false flag means the queue is empty and every residual is at or below epsilon*d[i]. |
| RunLemmas.IterateMonotone | APPR/main.cpp:49-54 | For admissible parameters, p never decreases, entry by entry, over a run. |
| RunLemmas.IterateNonNegative | APPR/main.cpp:49-54 | With non-negative weights and 0 <= alpha <= 1, a run keeps p and r non-negative. |
| RunLemmas.IterateConservesMass | APPR/main.cpp:49-54 | When every degree equals its column sum, a run keeps sum(p)+sum(r). |
| RunLemmas.MassChangeNonPositive | APPR/main.cpp:72-79 | A push of a node whose column weighs no more than its degree never adds mass, for alpha <= 1 and a non-negative residual. |
| RunLemmas.IterateMassNonIncreasing | APPR/main.cpp:49-54 | When no column outweighs its node's degree, a run with admissible parameters never increases sum(p)+sum(r). |
| RunLemmas.ApprConservesMass | APPR/main.cpp:24-54 | When every degree equals its column sum, the result satisfies sum(p)+sum(r) == sum(seed). |
| RunLemmas.ApprNonNegativeP | APPR/main.cpp:37-54 | For admissible parameters the returned p is non-negative, whatever the seed. |
| RunLemmas.ApprNonNegativeR | APPR/main.cpp:28-54 | For admissible parameters, non-negative weights and a non-negative seed, the returned r is non-negative. |
| Scenarios.IsolatedPushes | ACLcut/APPR/APPR/APPR.cpp:77-86 | For an isolated node with seed 1, alpha 0.5 and epsilon 0.1, the initial state queues the node. The first push gives p = 0.5 and r = 0.25 and re-queues the node. The second push gives p = 0.625 and r = 0.0625 and empties the queue. |
| Scenarios.TwoPushRun | ACLcut/APPR/APPR/APPR.cpp:58-62 | When two pushes empty the queue, the driver loop stops after exactly those two under any cap of at least 2. |
| Scenarios.IsolatedRun | ACLcut/APPR/APPR/APPR.cpp:58-67 | Under any cap of at least 2, the isolated node's run returns p = 0.625 and r = 0.0625. The flag is true exactly when the cap is 2, even though the queue is empty then too. |
| Scenarios.OneEdgeInit | ACLcut/APPR/APPR/APPR.cpp:30-54 | On the edge 0 -> 1 seeded with [1, 0], the state before the loop has p = [0, 0], r = [1, 0] and only node 0 queued. |
| Scenarios.OneEdgeSpread | ACLcut/APPR/APPR/APPR.cpp:88-95 | The column loop of that first push sends 0.4 to node 1 and queues it. |
| Scenarios.OneEdgeFirstPush | ACLcut/APPR/APPR/APPR.cpp:77-97 | On the edge 0 -> 1 with alpha 0.2, the first push from that state gives p = [0.2, 0] and r = [0.4, 0.4], and queues node 0 then node 1. |
| Scenarios.SelfLoopFirstPush | ACLcut/APPR/APPR/APPR.cpp:80-95 | On a self-loop of weight 2 with degree 2, one push keeps p + r at 1 while p*d + r becomes 1.5. |

## Left out

- Argument checking and MEX marshalling are not modelled. This covers the `nrhs != 5` error, `mxGetPr`, `export_matlab` and the choice of outputs by `nlhs`. The model takes the five inputs as values and returns all three outputs.
- Floating point is not modelled. All arithmetic is on exact reals, so IEEE rounding, overflow and NaN do not appear.
- The `full` and `sparse` classes are not modelled; `matlab_matrix.h` is not part of this model. Dense vectors are `seq<real>`. The sparse matrix is the `Csc.Matrix` value of its `col`, `row` and `val` arrays.
- The input shape is a precondition (`WellFormed`), while the source checks nothing:
  - W is square N×N with a valid column structure;
  - `seed` and `d` have length N;
  - every `d[i] > 0`.

  With `d[node] == 0` the source divides by zero.
- Indices (`mwIndex`) are unbounded naturals, so unsigned overflow is not modelled.
- `MAXITER` is the parameter `maxIter`. The source's value is the constant `PushModel.DefaultMaxIter` (1000000).
- The `std::queue` is not modelled as an object. It is a sequence, front first, passed to each push and returned by it.
- The range conditions `0 < alpha < 1` and `epsilon > 0` are never checked by the code. They are not preconditions of any operation, only of the lemmas that need them (`Admissible`).
- The paper's bound on the number of pushes before the queue empties, independent of N, is not proved. Only the `maxIter` cap is.
