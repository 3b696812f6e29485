/** The solver as the C++ code runs it: p and r are dense arrays updated in
    place, the work queue is a FIFO sequence of node indices (front first),
    and the matrix, degrees and parameters are read-only. */
module Appr {
  import Csc
  import Vectors
  import opened PushModel
  import RunLemmas

  /** One iteration of the column loop of a push of `node` whose residual
      was rNode: send (1-alpha)*rNode*w/(2*d[node]) along stored entry i and
      append its target if that delta carried it over its threshold. */
  method SpreadEntry(r: array<real>, g: Params, node: nat, rNode: real, i: nat, update: seq<nat>, ghost s: State)
    returns (update': seq<nat>)
    requires WellFormed(g) && node < g.w.n && i < g.w.col[g.w.n] && Fits(g, s)
    requires s.r == r[..] && s.queue == update
    modifies r
    ensures State(s.p, r[..], update') == EntryStep(g, s, node, rNode, i)
  {
    var target := g.w.row[i];
    var delta := Delta(g, node, rNode, i);
    r[target] := r[target] + delta;
    assert r[..] == s.r[target := s.r[target] + delta];
    var excess := r[target] - Threshold(g, target);
    update' := update;
    if 0.0 < excess && excess <= delta {
      update' := update' + [target];
    }
  }

  /** The column loop: the entries of node's column, in order. */
  method SpreadColumn(r: array<real>, g: Params, node: nat, rNode: real, update: seq<nat>, ghost s: State)
    returns (update': seq<nat>)
    requires WellFormed(g) && node < g.w.n && Fits(g, s)
    requires s.r == r[..] && s.queue == update
    modifies r
    ensures State(s.p, r[..], update') == Scatter(g, s, node, rNode, g.w.col[node], g.w.col[node + 1])
  {
    Csc.ColumnInRange(g.w, node);
    update' := update;
    for i := g.w.col[node] to g.w.col[node + 1]
      invariant State(s.p, r[..], update') == Scatter(g, s, node, rNode, g.w.col[node], i)
    {
      update' := SpreadEntry(r, g, node, rNode, i, update', State(s.p, r[..], update'));
    }
  }

  /** One call of push: pop the front node; if its residual is still above
      its threshold, commit alpha*r_node to p, keep (1-alpha)*r_node/2, re-append
      the node if that is still above threshold, then run the column loop. A
      stale entry is only dropped. */
  method Push(p: array<real>, r: array<real>, g: Params, update: seq<nat>) returns (update': seq<nat>)
    requires WellFormed(g) && p != r && p.Length == g.w.n && r.Length == g.w.n
    requires update != [] && forall j :: 0 <= j < |update| ==> update[j] < g.w.n
    modifies p, r
    ensures State(p[..], r[..], update') == PushStep(g, State(old(p[..]), old(r[..]), update))
  {
    ghost var s := State(p[..], r[..], update);
    var node := update[0];
    update' := update[1..];
    if r[node] > Threshold(g, node) {
      var rNode := r[node];
      p[node] := p[node] + Committed(g, rNode);
      r[node] := Retained(g, rNode);
      if r[node] > Threshold(g, node) {
        update' := update' + [node];
      }
      ghost var c := State(p[..], r[..], update');
      assert c == Commit(g, s);
      update' := SpreadColumn(r, g, node, rNode, update', c);
    }
  }

  /** The full vector r = seed: a fresh copy of the seed. */
  method CopyOf(seed: seq<real>) returns (r: array<real>)
    ensures fresh(r) && r[..] == seed
  {
    r := new real[|seed|](i requires 0 <= i < |seed| => seed[i]);
  }

  /** The APPR vector p of length n, set to zero entry by entry. */
  method NewZeros(n: nat) returns (p: array<real>)
    ensures fresh(p) && p[..] == Vectors.Zeros(n)
  {
    p := new real[n];
    for i := 0 to n
      invariant forall j :: 0 <= j < i ==> p[j] == 0.0
    {
      p[i] := 0.0;
    }
  }

  /** The initial queue: every node whose residual is above its threshold,
      scanned in increasing index order. */
  method InitialiseQueue(r: array<real>, g: Params) returns (update: seq<nat>)
    requires r.Length == |g.d|
    ensures update == InitialQueue(g, r[..], r.Length)
  {
    update := [];
    for i := 0 to r.Length
      invariant update == InitialQueue(g, r[..], i)
    {
      assert r[..][i] == r[i];
      if r[i] > Threshold(g, i) {
        update := update + [i];
      }
    }
  }

  /** [p, flag, r] = APPR(alpha, epsilon, seed, W, d) with MAXITER = maxIter:
      copy the seed into r, zero p, queue the nodes above threshold, then
      push while the queue is non-empty and fewer than maxIter pushes have
      run. flag reports that the cap was reached; when it is false every
      residual is at or below its threshold. */
  method Compute(g: Params, seed: seq<real>, maxIter: nat) returns (p: array<real>, flag: bool, r: array<real>)
    requires WellFormed(g) && |seed| == g.w.n
    ensures fresh(p) && fresh(r)
    ensures Output(p[..], flag, r[..]) == ApprSpec(g, seed, maxIter)
    ensures !flag ==> forall i :: 0 <= i < r.Length ==> r[i] <= Threshold(g, i)
  {
    r := CopyOf(seed);
    p := NewZeros(g.w.n);
    var update := InitialiseQueue(r, g);
    ghost var init := InitState(g, seed);
    assert State(p[..], r[..], update) == init;
    var iter: nat := 0;
    while update != [] && iter < maxIter
      invariant iter <= maxIter
      invariant Fits(g, State(p[..], r[..], update))
      invariant Iterate(g, State(p[..], r[..], update), iter, maxIter) == Iterate(g, init, 0, maxIter)
      decreases maxIter - iter
    {
      update := Push(p, r, g, update);
      iter := iter + 1;
    }
    flag := iter == maxIter;
    RunLemmas.ApprConverged(g, seed, maxIter);
  }
}
