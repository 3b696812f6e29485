/** What one push does: its exact effect on p, r and the queue, the
    coverage invariant it keeps, and how it changes the total mass. */
module PushLemmas {
  import Csc
  import Vectors
  import RealArith
  import opened PushModel

  /** The mass that column `node` sends to node t over entries lo .. hi-1
      (self-loops and repeated targets included), independent of the order
      in which the entries are visited. */
  function Inflow(g: Params, node: nat, ru: real, t: nat, lo: nat, hi: nat): real
    requires WellFormed(g) && node < g.w.n && lo <= hi <= g.w.col[g.w.n]
    decreases hi - lo
  {
    if lo == hi then 0.0
    else Inflow(g, node, ru, t, lo, hi - 1) + (if g.w.row[hi - 1] == t then Delta(g, node, ru, hi - 1) else 0.0)
  }

  /** A node that no entry of the range targets receives nothing. */
  lemma {:induction false} InflowZero(g: Params, node: nat, ru: real, t: nat, lo: nat, hi: nat)
    requires WellFormed(g) && node < g.w.n && lo <= hi <= g.w.col[g.w.n]
    requires forall i :: lo <= i < hi ==> g.w.row[i] != t
    ensures Inflow(g, node, ru, t, lo, hi) == 0.0
    decreases hi - lo
  {
    if lo < hi {
      InflowZero(g, node, ru, t, lo, hi - 1);
    }
  }

  /** The column loop's test on the target's excess over its threshold,
      0 < excess <= delta, holds exactly when the delta carried the target
      from at or below its threshold to above it. */
  lemma EntryStepQueue(g: Params, s: State, node: nat, ru: real, i: nat)
    requires WellFormed(g) && Fits(g, s) && node < g.w.n && i < g.w.col[g.w.n]
    ensures var x := g.w.row[i];
            var t := EntryStep(g, s, node, ru, i);
            t.queue == if s.r[x] <= Threshold(g, x) < t.r[x] then s.queue + [x] else s.queue
  {
  }

  /** After the column loop each residual has grown by exactly its inflow. */
  lemma {:induction false} ScatterResidualAt(g: Params, s: State, node: nat, ru: real, lo: nat, hi: nat, t: nat)
    requires WellFormed(g) && Fits(g, s) && node < g.w.n && lo <= hi <= g.w.col[g.w.n] && t < g.w.n
    ensures Scatter(g, s, node, ru, lo, hi).r[t] == s.r[t] + Inflow(g, node, ru, t, lo, hi)
    decreases hi - lo
  {
    if lo < hi {
      ScatterResidualAt(g, s, node, ru, lo, hi - 1, t);
      var mid := Scatter(g, s, node, ru, lo, hi - 1);
      var x := g.w.row[hi - 1];
      assert Scatter(g, s, node, ru, lo, hi).r == mid.r[x := mid.r[x] + Delta(g, node, ru, hi - 1)];
    }
  }

  /** The column loop keeps every above-threshold node in the queue: a
      target that crosses its threshold on an entry is appended right then. */
  lemma {:induction false} ScatterCovered(g: Params, s: State, node: nat, ru: real, lo: nat, hi: nat)
    requires WellFormed(g) && Fits(g, s) && node < g.w.n && lo <= hi <= g.w.col[g.w.n]
    requires Covered(g, s)
    ensures Covered(g, Scatter(g, s, node, ru, lo, hi))
    decreases hi - lo
  {
    if lo < hi {
      var mid := Scatter(g, s, node, ru, lo, hi - 1);
      ScatterCovered(g, s, node, ru, lo, hi - 1);
      var t := EntryStep(g, mid, node, ru, hi - 1);
      forall i: nat | Above(g, t, i) ensures i in t.queue {
        if Above(g, mid, i) {
          assert i in mid.queue;
        }
      }
    }
  }

  /** The column loop only appends to the queue, at most one node per
      entry, each of them a target of the entries visited. */
  lemma {:induction false} ScatterQueue(g: Params, s: State, node: nat, ru: real, lo: nat, hi: nat)
    requires WellFormed(g) && Fits(g, s) && node < g.w.n && lo <= hi <= g.w.col[g.w.n]
    ensures var t := Scatter(g, s, node, ru, lo, hi);
            && |s.queue| <= |t.queue| <= |s.queue| + (hi - lo)
            && t.queue[..|s.queue|] == s.queue
            && forall k :: |s.queue| <= k < |t.queue| ==> t.queue[k] in g.w.row[lo..hi]
    decreases hi - lo
  {
    if lo < hi {
      ScatterQueue(g, s, node, ru, lo, hi - 1);
      var mid := Scatter(g, s, node, ru, lo, hi - 1);
      var t := EntryStep(g, mid, node, ru, hi - 1);
      var x := g.w.row[hi - 1];
      assert g.w.row[lo..hi] == g.w.row[lo..hi - 1] + [x];
      if t.queue != mid.queue {
        assert t.queue == mid.queue + [x];
        assert t.queue[..|s.queue|] == mid.queue[..|s.queue|];
        forall k | |s.queue| <= k < |t.queue| ensures t.queue[k] in g.w.row[lo..hi] {
          if k < |mid.queue| {
            assert t.queue[k] == mid.queue[k];
          }
        }
      }
    }
  }

  /** One push keeps the coverage invariant. */
  lemma PushStepCovered(g: Params, s: State)
    requires WellFormed(g) && Fits(g, s) && s.queue != [] && Covered(g, s)
    ensures Covered(g, PushStep(g, s))
  {
    var node := s.queue[0];
    var rest := s.queue[1..];
    assert s.queue == [node] + rest;
    if s.r[node] <= Threshold(g, node) {
      forall i: nat | Above(g, s, i) ensures i in rest {
        assert i in s.queue && i != node;
      }
    } else {
      var s1 := Commit(g, s);
      forall i: nat | Above(g, s1, i) ensures i in s1.queue {
        if i != node {
          assert Above(g, s, i);
          assert i in s.queue;
        }
      }
      Csc.ColumnInRange(g.w, node);
      ScatterCovered(g, s1, node, s.r[node], g.w.col[node], g.w.col[node + 1]);
    }
  }

  /** For admissible parameters a node above its threshold has a positive
      residual, so an active push commits and retains positive amounts. */
  lemma PositiveCommit(g: Params, i: nat, ru: real)
    requires WellFormed(g) && Admissible(g) && i < |g.d| && ru > Threshold(g, i)
    ensures ru > 0.0 && Committed(g, ru) > 0.0 && Retained(g, ru) > 0.0
  {
    RealArith.MulPos(g.epsilon, g.d[i]);
    RealArith.MulPos(g.alpha, ru);
    RealArith.MulPos(1.0 - g.alpha, ru);
    RealArith.DivPos((1.0 - g.alpha) * ru, 2.0);
  }

  /** A stale pop only drops the front; an active push commits alpha*r_node
      to p at the node and nowhere else, and (for admissible parameters)
      strictly increases it, so p never decreases. */
  lemma PushStepEstimate(g: Params, s: State)
    requires WellFormed(g) && Fits(g, s) && s.queue != []
    ensures var node := s.queue[0];
            s.r[node] <= Threshold(g, node) ==> PushStep(g, s) == State(s.p, s.r, s.queue[1..])
    ensures var node := s.queue[0];
            s.r[node] > Threshold(g, node) ==>
              PushStep(g, s).p == s.p[node := s.p[node] + Committed(g, s.r[node])]
    ensures Admissible(g) ==> Vectors.Le(s.p, PushStep(g, s).p)
    ensures var node := s.queue[0];
            Admissible(g) && s.r[node] > Threshold(g, node) ==> PushStep(g, s).p[node] > s.p[node]
  {
    var node := s.queue[0];
    Csc.ColumnInRange(g.w, node);
    if s.r[node] > Threshold(g, node) {
      assert PushStep(g, s).p == Commit(g, s).p;
      if Admissible(g) {
        PositiveCommit(g, node, s.r[node]);
      }
    }
  }

  /** An active push sets the node's own residual to (1-alpha)*r_node/2 and
      then adds its inflow to every node; a node that is neither the pushed
      node nor a target of its column keeps its residual. */
  lemma PushStepResidual(g: Params, s: State, t: nat)
    requires WellFormed(g) && Fits(g, s) && s.queue != [] && t < g.w.n
    requires s.r[s.queue[0]] > Threshold(g, s.queue[0])
    ensures var node := s.queue[0];
            PushStep(g, s).r[t]
              == (if t == node then Retained(g, s.r[node]) else s.r[t])
                 + Inflow(g, node, s.r[node], t, g.w.col[node], g.w.col[node + 1])
    ensures var node := s.queue[0];
            (t != node && forall i :: g.w.col[node] <= i < g.w.col[node + 1] ==> g.w.row[i] != t)
              ==> PushStep(g, s).r[t] == s.r[t]
  {
    var node := s.queue[0];
    Csc.ColumnInRange(g.w, node);
    ScatterResidualAt(g, Commit(g, s), node, s.r[node], g.w.col[node], g.w.col[node + 1], t);
    if t != node && forall i :: g.w.col[node] <= i < g.w.col[node + 1] ==> g.w.row[i] != t {
      InflowZero(g, node, s.r[node], t, g.w.col[node], g.w.col[node + 1]);
    }
  }

  /** A push removes exactly the front of the queue and only appends after
      the rest: first the node itself, iff it was above its threshold and its
      retained residual still is, then at most one target per column entry,
      each a target of the node's column. (That the targets come in column
      order, each exactly when it crosses its threshold, follows from the
      definition of Scatter together with EntryStepQueue.) */
  lemma PushStepQueue(g: Params, s: State)
    requires WellFormed(g) && Fits(g, s) && s.queue != []
    ensures var node := s.queue[0];
            var t := PushStep(g, s);
            var self := if s.r[node] > Threshold(g, node) && Retained(g, s.r[node]) > Threshold(g, node)
                        then [node] else [];
            var k := |s.queue| - 1 + |self|;
            && k <= |t.queue|
            && t.queue[..k] == s.queue[1..] + self
            && (s.r[node] <= Threshold(g, node) ==> |t.queue| == k)
            && |t.queue| <= k + (g.w.col[node + 1] - g.w.col[node])
            && forall j :: k <= j < |t.queue| ==> t.queue[j] in g.w.row[g.w.col[node]..g.w.col[node + 1]]
  {
    var node := s.queue[0];
    Csc.ColumnInRange(g.w, node);
    if s.r[node] > Threshold(g, node) {
      ScatterQueue(g, Commit(g, s), node, s.r[node], g.w.col[node], g.w.col[node + 1]);
    }
  }

  /** The mass a push of `node` sends over entries lo .. hi-1, all targets together. */
  function DeltaSum(g: Params, node: nat, ru: real, lo: nat, hi: nat): real
    requires WellFormed(g) && node < g.w.n && lo <= hi <= g.w.col[g.w.n]
    decreases hi - lo
  {
    if lo == hi then 0.0 else DeltaSum(g, node, ru, lo, hi - 1) + Delta(g, node, ru, hi - 1)
  }

  /** What a push of residual ru sends along entries of total weight cs out
      of a node of degree du: (1-alpha)*ru*cs/(2*du). */
  function Spread(g: Params, ru: real, cs: real, du: real): real
    requires du != 0.0
  {
    (1.0 - g.alpha) * ru * cs / (2.0 * du)
  }

  /** How a push of residual ru changes the total mass at a node of degree du
      whose column weighs cs: (1-alpha)*ru/2 * (cs/du - 1). */
  function MassChange(g: Params, ru: real, cs: real, du: real): real
    requires du != 0.0
  {
    Retained(g, ru) * (cs / du - 1.0)
  }

  /** The mass sent over a range is the range's weight times (1-alpha)*r_node/(2*d[node]). */
  lemma {:induction false} DeltaSumClosed(g: Params, node: nat, ru: real, lo: nat, hi: nat)
    requires WellFormed(g) && node < g.w.n && lo <= hi <= g.w.col[g.w.n]
    ensures DeltaSum(g, node, ru, lo, hi) == Spread(g, ru, Csc.RangeSum(g.w, lo, hi), g.d[node])
    decreases hi - lo
  {
    if lo == hi {
      assert (1.0 - g.alpha) * ru * 0.0 == 0.0;
    } else {
      DeltaSumClosed(g, node, ru, lo, hi - 1);
      RealArith.DivAdd((1.0 - g.alpha) * ru, Csc.RangeSum(g.w, lo, hi - 1), g.w.val[hi - 1], 2.0 * g.d[node]);
    }
  }

  /** The column loop adds to the residual total exactly what the column sends. */
  lemma {:induction false} ScatterSum(g: Params, s: State, node: nat, ru: real, lo: nat, hi: nat)
    requires WellFormed(g) && Fits(g, s) && node < g.w.n && lo <= hi <= g.w.col[g.w.n]
    ensures Vectors.Sum(Scatter(g, s, node, ru, lo, hi).r) == Vectors.Sum(s.r) + DeltaSum(g, node, ru, lo, hi)
    decreases hi - lo
  {
    if lo < hi {
      var mid := Scatter(g, s, node, ru, lo, hi - 1);
      ScatterSum(g, s, node, ru, lo, hi - 1);
      var x := g.w.row[hi - 1];
      Vectors.SumUpdate(mid.r, x, mid.r[x] + Delta(g, node, ru, hi - 1));
    }
  }

  /** Total mass: the sum of p plus the sum of r. */
  function Mass(s: State): real {
    Vectors.Sum(s.p) + Vectors.Sum(s.r)
  }

  /** Before the column loop, p has gained alpha*ru and r has gone from ru to
      (1-alpha)*ru/2 at the node. */
  lemma CommitSums(g: Params, s: State)
    requires WellFormed(g) && Fits(g, s) && s.queue != []
    ensures Vectors.Sum(Commit(g, s).p) == Vectors.Sum(s.p) + Committed(g, s.r[s.queue[0]])
    ensures Vectors.Sum(Commit(g, s).r) == Vectors.Sum(s.r) - s.r[s.queue[0]] + Retained(g, s.r[s.queue[0]])
  {
    var node := s.queue[0];
    Vectors.SumUpdate(s.p, node, s.p[node] + Committed(g, s.r[node]));
    Vectors.SumUpdate(s.r, node, Retained(g, s.r[node]));
  }

  /** The arithmetic of one push's mass balance: p gains alpha*ru, r loses
      ru and regains (1-alpha)*ru/2 at the node plus the column's spread. */
  lemma MassBalance(g: Params, ru: real, cs: real, du: real, sp: real, sr: real, sp': real, sr': real)
    requires du != 0.0
    requires sp' == sp + Committed(g, ru)
    requires sr' == sr - ru + Retained(g, ru) + Spread(g, ru, cs, du)
    ensures (sp' + sr') - (sp + sr) == MassChange(g, ru, cs, du)
  {
    assert (1.0 - g.alpha) * ru * cs / (2.0 * du) == (1.0 - g.alpha) * ru / 2.0 * (cs / du);
  }

  /** After an active push, p has gained alpha*r_node and r has gone from
      r_node to (1-alpha)*r_node/2 at the node plus what the column sends. */
  lemma ActivePushSums(g: Params, s: State)
    requires WellFormed(g) && Fits(g, s) && s.queue != []
    requires s.r[s.queue[0]] > Threshold(g, s.queue[0])
    ensures Vectors.Sum(PushStep(g, s).p) == Vectors.Sum(s.p) + Committed(g, s.r[s.queue[0]])
    ensures Vectors.Sum(PushStep(g, s).r) == Vectors.Sum(s.r) - s.r[s.queue[0]] + Retained(g, s.r[s.queue[0]])
              + Spread(g, s.r[s.queue[0]], Csc.ColSum(g.w, s.queue[0]), g.d[s.queue[0]])
  {
    Csc.ColumnInRange(g.w, s.queue[0]);
    var lo, hi := g.w.col[s.queue[0]], g.w.col[s.queue[0] + 1];
    CommitSums(g, s);
    ScatterSum(g, Commit(g, s), s.queue[0], s.r[s.queue[0]], lo, hi);
    DeltaSumClosed(g, s.queue[0], s.r[s.queue[0]], lo, hi);
  }

  /** An active push changes the total mass by
      (1-alpha)*r_node/2 * (colsum(node)/d[node] - 1); a stale pop changes
      nothing. */
  lemma PushStepMass(g: Params, s: State)
    requires WellFormed(g) && Fits(g, s) && s.queue != []
    ensures var node := s.queue[0];
            s.r[node] <= Threshold(g, node) ==> Mass(PushStep(g, s)) == Mass(s)
    ensures var node := s.queue[0];
            s.r[node] > Threshold(g, node) ==>
              Mass(PushStep(g, s)) - Mass(s) == MassChange(g, s.r[node], Csc.ColSum(g.w, node), g.d[node])
  {
    if s.r[s.queue[0]] > Threshold(g, s.queue[0]) {
      ActivePushSums(g, s);
      MassBalance(g, s.r[s.queue[0]], Csc.ColSum(g.w, s.queue[0]), g.d[s.queue[0]],
                  Vectors.Sum(s.p), Vectors.Sum(s.r), Vectors.Sum(PushStep(g, s).p), Vectors.Sum(PushStep(g, s).r));
    }
  }

  /** A node without out-edges loses half of the residual it does not commit. */
  lemma PushStepIsolatedLoss(g: Params, s: State)
    requires WellFormed(g) && Fits(g, s) && s.queue != []
    requires s.r[s.queue[0]] > Threshold(g, s.queue[0]) && Csc.ColSum(g.w, s.queue[0]) == 0.0
    ensures Mass(PushStep(g, s)) == Mass(s) - Retained(g, s.r[s.queue[0]])
  {
    PushStepMass(g, s);
    MassChangeEmptyColumn(g, s.r[s.queue[0]], g.d[s.queue[0]]);
  }

  lemma MassChangeEmptyColumn(g: Params, ru: real, du: real)
    requires du != 0.0
    ensures MassChange(g, ru, 0.0, du) == -Retained(g, ru)
  {
    assert 0.0 / du == 0.0;
  }

  /** A mass change with a non-zero retained part vanishes iff cs == du. */
  lemma MassChangeZeroIff(g: Params, ru: real, cs: real, du: real)
    requires Retained(g, ru) != 0.0 && du != 0.0
    ensures MassChange(g, ru, cs, du) == 0.0 <==> cs == du
  {
    if MassChange(g, ru, cs, du) == 0.0 {
      assert cs / du == 1.0;
    }
  }

  /** For admissible parameters an active push conserves the total mass
      exactly when the node's degree equals its column weight sum. */
  lemma PushStepConservesIff(g: Params, s: State)
    requires WellFormed(g) && Fits(g, s) && s.queue != [] && Admissible(g)
    requires s.r[s.queue[0]] > Threshold(g, s.queue[0])
    ensures Mass(PushStep(g, s)) == Mass(s) <==> g.d[s.queue[0]] == Csc.ColSum(g.w, s.queue[0])
  {
    PushStepMass(g, s);
    PositiveCommit(g, s.queue[0], s.r[s.queue[0]]);
    MassChangeZeroIff(g, s.r[s.queue[0]], Csc.ColSum(g.w, s.queue[0]), g.d[s.queue[0]]);
  }

  /** The mass sent along one entry is non-negative. */
  lemma DeltaNonNegative(g: Params, node: nat, ru: real, i: nat)
    requires WellFormed(g) && node < g.w.n && i < |g.w.val|
    requires g.alpha <= 1.0 && ru >= 0.0 && g.w.val[i] >= 0.0
    ensures Delta(g, node, ru, i) >= 0.0
  {
    RealArith.MulNonNeg(1.0 - g.alpha, ru);
    RealArith.MulNonNeg((1.0 - g.alpha) * ru, g.w.val[i]);
    RealArith.MulPos(2.0, g.d[node]);
    RealArith.DivNonNeg((1.0 - g.alpha) * ru * g.w.val[i], 2.0 * g.d[node]);
  }

  /** With non-negative weights, alpha <= 1 and r_node >= 0, the column loop
      keeps r non-negative. */
  lemma {:induction false} ScatterNonNegative(g: Params, s: State, node: nat, ru: real, lo: nat, hi: nat)
    requires WellFormed(g) && Fits(g, s) && node < g.w.n && lo <= hi <= g.w.col[g.w.n]
    requires Csc.NonNegative(g.w) && g.alpha <= 1.0 && ru >= 0.0
    requires Vectors.NonNegative(s.r)
    ensures Vectors.NonNegative(Scatter(g, s, node, ru, lo, hi).r)
    decreases hi - lo
  {
    if lo < hi {
      ScatterNonNegative(g, s, node, ru, lo, hi - 1);
      DeltaNonNegative(g, node, ru, hi - 1);
    }
  }

  lemma CommitNonNegative(g: Params, ru: real)
    requires 0.0 <= g.alpha <= 1.0 && ru >= 0.0
    ensures Committed(g, ru) >= 0.0 && Retained(g, ru) >= 0.0
  {
    RealArith.MulNonNeg(g.alpha, ru);
    RealArith.MulNonNeg(1.0 - g.alpha, ru);
    RealArith.DivNonNeg((1.0 - g.alpha) * ru, 2.0);
  }

  /** With non-negative weights and alpha in [0, 1], a push keeps p and r
      non-negative. */
  lemma PushStepNonNegative(g: Params, s: State)
    requires WellFormed(g) && Fits(g, s) && s.queue != []
    requires Csc.NonNegative(g.w) && 0.0 <= g.alpha <= 1.0
    requires Vectors.NonNegative(s.p) && Vectors.NonNegative(s.r)
    ensures Vectors.NonNegative(PushStep(g, s).p) && Vectors.NonNegative(PushStep(g, s).r)
  {
    var node := s.queue[0];
    if s.r[node] > Threshold(g, node) {
      CommitNonNegative(g, s.r[node]);
      Csc.ColumnInRange(g.w, node);
      ScatterNonNegative(g, Commit(g, s), node, s.r[node], g.w.col[node], g.w.col[node + 1]);
    }
  }
}
