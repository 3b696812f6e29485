/** Small concrete runs of the solver, worked out through the model. */
module Scenarios {
  import Csc
  import opened PushModel

  /** One node with no stored entries, degree 1, alpha = 0.5, epsilon = 0.1. */
  function Isolated(): Params {
    Params(Csc.Matrix(1, [0, 0], [], []), [1.0], 0.5, 0.1)
  }

  /** Two nodes, one edge 0 -> 1 of weight 1 (column 0 holds row 1), degrees
      [1, 1], alpha = 0.2, epsilon = 0.01. */
  function OneEdge(): Params {
    Params(Csc.Matrix(2, [0, 1, 1], [1], [1.0]), [1.0, 1.0], 0.2, 0.01)
  }

  /** One node with a self-loop of weight 2, degree 2, alpha = 0.5,
      epsilon = 0.1. */
  function SelfLoop(): Params {
    Params(Csc.Matrix(1, [0, 1], [0], [2.0]), [2.0], 0.5, 0.1)
  }

  /** The two pushes of an isolated node seeded with 1: p goes 0.5 then
      0.625, its residual 0.25 then 0.0625, which is below its threshold 0.1,
      so the second push empties the queue. */
  lemma IsolatedPushes(g: Params)
    requires g == Isolated()
    ensures InitState(g, [1.0]) == State([0.0], [1.0], [0])
    ensures PushStep(g, State([0.0], [1.0], [0])) == State([0.5], [0.25], [0])
    ensures PushStep(g, State([0.5], [0.25], [0])) == State([0.625], [0.0625], [])
  {
    assert InitialQueue(g, [1.0], 1) == [0];
    assert Commit(g, State([0.0], [1.0], [0])) == State([0.5], [0.25], [0]);
    assert Commit(g, State([0.5], [0.25], [0])) == State([0.625], [0.0625], []);
  }

  /** A run whose first two pushes empty the queue stops there, whatever
      the cap, as long as the cap allows two pushes. */
  lemma TwoPushRun(g: Params, s0: State, s1: State, s2: State, maxIter: nat)
    requires WellFormed(g) && Fits(g, s0) && 2 <= maxIter
    requires s0.queue != [] && PushStep(g, s0) == s1
    requires s1.queue != [] && PushStep(g, s1) == s2 && s2.queue == []
    ensures Iterate(g, s0, 0, maxIter) == Run(s2, 2)
  {
    assert Iterate(g, s2, 2, maxIter) == Run(s2, 2);
  }

  /** Run under any cap that allows two pushes, the isolated node seeded
      with 1 stops after those two with p = 0.625 and r = 0.0625. The flag
      is raised exactly when the cap is 2: the run has then converged, but
      the flag compares the count with the cap and does not look at the
      queue. */
  lemma IsolatedRun(g: Params, seed: seq<real>, maxIter: nat)
    requires g == Isolated() && seed == [1.0] && 2 <= maxIter
    ensures ApprSpec(g, seed, maxIter) == Output([0.625], maxIter == 2, [0.0625])
  {
    IsolatedPushes(g);
    TwoPushRun(g, State([0.0], [1.0], [0]), State([0.5], [0.25], [0]), State([0.625], [0.0625], []), maxIter);
  }

  /** The state before the loop on the edge graph seeded with [1, 0]: only
      node 0 is above its threshold. */
  lemma OneEdgeInit()
    ensures InitState(OneEdge(), [1.0, 0.0]) == State([0.0, 0.0], [1.0, 0.0], [0])
  {
    assert InitialQueue(OneEdge(), [1.0, 0.0], 1) == [0];
  }

  /** The column loop of the first push on the edge graph: delta 0.4 reaches
      node 1 and carries it over its threshold. */
  lemma OneEdgeSpread()
    ensures Scatter(OneEdge(), State([0.2, 0.0], [0.4, 0.0], [0]), 0, 1.0, 0, 1)
            == State([0.2, 0.0], [0.4, 0.4], [0, 1])
  {
    var g := OneEdge();
    var c := State([0.2, 0.0], [0.4, 0.0], [0]);
    assert Delta(g, 0, 1.0, 0) == 0.4;
    assert EntryStep(g, c, 0, 1.0, 0) == State([0.2, 0.0], [0.4, 0.4], [0, 1]);
  }

  /** The first push on node 0, from the state OneEdgeInit gives, moves
      alpha of its unit residual into p, keeps 0.4 and sends 0.4 along the
      edge to node 1; both nodes are then above threshold and are queued,
      node 0 first. */
  lemma OneEdgeFirstPush()
    ensures PushStep(OneEdge(), State([0.0, 0.0], [1.0, 0.0], [0])) == State([0.2, 0.0], [0.4, 0.4], [0, 1])
  {
    var g := OneEdge();
    OneEdgeSpread();
    assert Commit(g, State([0.0, 0.0], [1.0, 0.0], [0])) == State([0.2, 0.0], [0.4, 0.0], [0]);
  }

  /** On a self-loop of weight equal to the degree the first push keeps
      p + r at the seed's total, 1, while p*d + r grows to 1.5: the quantity
      the push preserves is the plain sum, not the degree-weighted one. */
  lemma SelfLoopFirstPush()
    ensures var t := PushStep(SelfLoop(), InitState(SelfLoop(), [1.0]));
            && t == State([0.5], [0.5], [0])
            && t.p[0] + t.r[0] == 1.0
            && t.p[0] * SelfLoop().d[0] + t.r[0] == 1.5
  {
    var g := SelfLoop();
    var s0 := InitState(g, [1.0]);
    var c := Commit(g, s0);
    assert c == State([0.5], [0.25], [0]) by {
      assert s0 == State([0.0], [1.0], [0]);
    }
    assert Scatter(g, c, 0, 1.0, 0, 1) == State([0.5], [0.5], [0]) by {
      assert Delta(g, 0, 1.0, 0) == 0.25;
      assert EntryStep(g, c, 0, 1.0, 0) == State([0.5], [0.5], [0]);
      assert Scatter(g, c, 0, 1.0, 0, 1) == EntryStep(g, Scatter(g, c, 0, 1.0, 0, 0), 0, 1.0, 0);
    }
  }
}
