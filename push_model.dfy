/** The Andersen-Chung-Lang push solver for approximate personalised
    PageRank, as values: the state is the estimate p, the residual r and the
    FIFO work queue; one push pops the queue front and, when the node is still
    above its threshold, moves its residual into p and along its column. */
module PushModel {
  import Csc
  import Vectors

  /** The read-only inputs of the solver: the matrix W, the degree table d,
      and the parameters alpha and epsilon. */
  datatype Params = Params(w: Csc.Matrix, d: seq<real>, alpha: real, epsilon: real)

  /** The estimate p, the residual r and the work queue (front first). */
  datatype State = State(p: seq<real>, r: seq<real>, queue: seq<nat>)

  /** What the solver computes: p, the flag `iter == MAXITER`, and r. */
  datatype Output = Output(p: seq<real>, flag: bool, r: seq<real>)

  /** A finished loop: the last state and the number of pushes made. */
  datatype Run = Run(last: State, iter: nat)

  /** The default iteration cap of the C++ entry point. */
  const DefaultMaxIter: nat := 1000000

  /** Shapes the code relies on without checking: a valid CSC matrix, one
      strictly positive degree per node. */
  predicate WellFormed(g: Params) {
    && Csc.Valid(g.w)
    && |g.d| == g.w.n
    && forall i :: 0 <= i < |g.d| ==> g.d[i] > 0.0
  }

  /** The documented parameter ranges: 0 < alpha < 1 and epsilon > 0. */
  predicate Admissible(g: Params) {
    0.0 < g.alpha < 1.0 && g.epsilon > 0.0
  }

  /** Each node's degree is its column weight sum. */
  predicate DegreesMatch(g: Params)
    requires WellFormed(g)
  {
    forall u :: 0 <= u < g.w.n ==> g.d[u] == Csc.ColSum(g.w, u)
  }

  function Threshold(g: Params, i: nat): real
    requires i < |g.d|
  {
    g.epsilon * g.d[i]
  }

  /** Vectors of length N and a queue holding only nodes. */
  predicate Fits(g: Params, s: State) {
    && |s.p| == g.w.n
    && |s.r| == g.w.n
    && forall k :: 0 <= k < |s.queue| ==> s.queue[k] < g.w.n
  }

  /** Node i's residual exceeds its threshold. */
  predicate Above(g: Params, s: State, i: nat) {
    i < |s.r| && i < |g.d| && s.r[i] > Threshold(g, i)
  }

  /** Every node above its threshold occurs somewhere in the queue. */
  ghost predicate Covered(g: Params, s: State) {
    forall i: nat :: Above(g, s, i) ==> i in s.queue
  }

  /** What an active push of residual ru commits to p: alpha*ru. */
  function Committed(g: Params, ru: real): real {
    g.alpha * ru
  }

  /** What the pushed node keeps as residual: (1-alpha)*ru/2. */
  function Retained(g: Params, ru: real): real {
    (1.0 - g.alpha) * ru / 2.0
  }

  /** The mass sent along stored entry i by a push of `node` whose residual was ru. */
  function Delta(g: Params, node: nat, ru: real, i: nat): real
    requires WellFormed(g) && node < g.w.n && i < |g.w.val|
  {
    (1.0 - g.alpha) * ru * g.w.val[i] / (2.0 * g.d[node])
  }

  /** One iteration of the column loop: add the entry's delta to its target's
      residual and append the target if that delta carried it over its
      threshold. */
  function EntryStep(g: Params, s: State, node: nat, ru: real, i: nat): (t: State)
    requires WellFormed(g) && Fits(g, s) && node < g.w.n && i < g.w.col[g.w.n]
    ensures Fits(g, t) && t.p == s.p
    ensures forall v :: 0 <= v < |s.r| && v != g.w.row[i] ==> t.r[v] == s.r[v]
    ensures t.r[g.w.row[i]] == s.r[g.w.row[i]] + Delta(g, node, ru, i)
    ensures t.queue == s.queue || t.queue == s.queue + [g.w.row[i]]
  {
    var target := g.w.row[i];
    var delta := Delta(g, node, ru, i);
    var r' := s.r[target := s.r[target] + delta];
    var excess := r'[target] - Threshold(g, target);
    State(s.p, r', if 0.0 < excess && excess <= delta then s.queue + [target] else s.queue)
  }

  /** The column loop over stored entries lo .. hi-1, in order. It leaves p
      alone. */
  function Scatter(g: Params, s: State, node: nat, ru: real, lo: nat, hi: nat): (t: State)
    requires WellFormed(g) && Fits(g, s) && node < g.w.n && lo <= hi <= g.w.col[g.w.n]
    ensures Fits(g, t) && t.p == s.p
    decreases hi - lo
  {
    if lo == hi then s else EntryStep(g, Scatter(g, s, node, ru, lo, hi - 1), node, ru, hi - 1)
  }

  /** The first half of an active push of the front node, before the column
      loop: pop it, commit alpha*r_node to p, set its residual to
      (1-alpha)*r_node/2, and re-append it iff that is still above its
      threshold. */
  function Commit(g: Params, s: State): (t: State)
    requires WellFormed(g) && Fits(g, s) && s.queue != []
    ensures Fits(g, t)
  {
    var node := s.queue[0];
    var ru := s.r[node];
    var p1 := s.p[node := s.p[node] + Committed(g, ru)];
    var r1 := s.r[node := Retained(g, ru)];
    var rest := s.queue[1..];
    State(p1, r1, if r1[node] > Threshold(g, node) then rest + [node] else rest)
  }

  /** The push of the front node: a stale entry (at or below threshold) is
      only dropped; otherwise Commit, then the column loop. */
  function PushStep(g: Params, s: State): (t: State)
    requires WellFormed(g) && Fits(g, s) && s.queue != []
    ensures Fits(g, t)
  {
    var node := s.queue[0];
    if s.r[node] <= Threshold(g, node) then State(s.p, s.r, s.queue[1..])
    else
      Csc.ColumnInRange(g.w, node);
      Scatter(g, Commit(g, s), node, s.r[node], g.w.col[node], g.w.col[node + 1])
  }

  /** The nodes i < k whose residual exceeds their threshold, in increasing
      order: the queue as the initialisation loop builds it. */
  function InitialQueue(g: Params, r: seq<real>, k: nat): (q: seq<nat>)
    requires |r| == |g.d| && k <= |r|
    ensures forall j :: 0 <= j < |q| ==> q[j] < k
    ensures forall j, j' :: 0 <= j < j' < |q| ==> q[j] < q[j']
    ensures forall i :: 0 <= i < k ==> (i in q <==> r[i] > Threshold(g, i))
  {
    if k == 0 then []
    else InitialQueue(g, r, k - 1) + (if r[k - 1] > Threshold(g, k - 1) then [k - 1] else [])
  }

  /** The state before the loop: p all zeros, r a copy of the seed, and the
      queue of every node above its threshold. */
  function InitState(g: Params, seed: seq<real>): (s: State)
    requires WellFormed(g) && |seed| == g.w.n
    ensures Fits(g, s) && Covered(g, s)
    ensures s.p == Vectors.Zeros(g.w.n) && s.r == seed
    ensures forall j, j' :: 0 <= j < j' < |s.queue| ==> s.queue[j] < s.queue[j']
    ensures forall i :: 0 <= i < g.w.n ==> (i in s.queue <==> seed[i] > Threshold(g, i))
  {
    var q := InitialQueue(g, seed, |seed|);
    var s := State(Vectors.Zeros(g.w.n), seed, q);
    assert forall i: nat :: Above(g, s, i) ==> i in q;
    s
  }

  /** The driver loop: push while the queue is non-empty and fewer than
      maxIter pushes have run. On return the queue is empty or the cap is
      reached. */
  function Iterate(g: Params, s: State, iter: nat, maxIter: nat): (res: Run)
    requires WellFormed(g) && Fits(g, s) && iter <= maxIter
    ensures Fits(g, res.last) && iter <= res.iter <= maxIter
    ensures res.last.queue == [] || res.iter == maxIter
    decreases maxIter - iter
  {
    if s.queue != [] && iter < maxIter then Iterate(g, PushStep(g, s), iter + 1, maxIter)
    else Run(s, iter)
  }

  /** The whole computation [p, flag, r] = APPR(alpha, epsilon, seed, W, d). */
  function ApprSpec(g: Params, seed: seq<real>, maxIter: nat): (out: Output)
    requires WellFormed(g) && |seed| == g.w.n
    ensures |out.p| == g.w.n && |out.r| == g.w.n
    ensures !out.flag ==> Iterate(g, InitState(g, seed), 0, maxIter).last.queue == []
  {
    var res := Iterate(g, InitState(g, seed), 0, maxIter);
    Output(res.last.p, res.iter == maxIter, res.last.r)
  }
}
