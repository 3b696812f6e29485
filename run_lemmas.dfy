/** What the driver loop guarantees over a whole run: the coverage
    invariant, convergence when it stops before the cap, monotone and
    non-negative vectors, and mass accounting. */
module RunLemmas {
  import Csc
  import Vectors
  import RealArith
  import opened PushModel
  import opened PushLemmas

  /** Every push keeps every above-threshold node in the queue. */
  lemma {:induction false} IterateCovered(g: Params, s: State, iter: nat, maxIter: nat)
    requires WellFormed(g) && Fits(g, s) && iter <= maxIter && Covered(g, s)
    ensures Covered(g, Iterate(g, s, iter, maxIter).last)
    decreases maxIter - iter
  {
    if s.queue != [] && iter < maxIter {
      PushStepCovered(g, s);
      IterateCovered(g, PushStep(g, s), iter + 1, maxIter);
    }
  }

  /** The computation runs at most maxIter pushes and reports the flag
      iter == maxIter; a false flag means the queue emptied, and then every
      residual is at or below its threshold. */
  lemma ApprConverged(g: Params, seed: seq<real>, maxIter: nat)
    requires WellFormed(g) && |seed| == g.w.n
    ensures var res := Iterate(g, InitState(g, seed), 0, maxIter);
            && res.iter <= maxIter
            && ApprSpec(g, seed, maxIter).flag == (res.iter == maxIter)
            && (!ApprSpec(g, seed, maxIter).flag ==> res.last.queue == [])
    ensures var out := ApprSpec(g, seed, maxIter);
            |out.r| == g.w.n && (!out.flag ==> forall i :: 0 <= i < g.w.n ==> out.r[i] <= Threshold(g, i))
  {
    var res := Iterate(g, InitState(g, seed), 0, maxIter);
    IterateCovered(g, InitState(g, seed), 0, maxIter);
    if res.iter != maxIter {
      forall i | 0 <= i < g.w.n ensures res.last.r[i] <= Threshold(g, i) {
        assert !Above(g, res.last, i);
      }
    }
  }

  /** For admissible parameters p never decreases over a run. */
  lemma {:induction false} IterateMonotone(g: Params, s: State, iter: nat, maxIter: nat)
    requires WellFormed(g) && Fits(g, s) && iter <= maxIter && Admissible(g)
    ensures Vectors.Le(s.p, Iterate(g, s, iter, maxIter).last.p)
    decreases maxIter - iter
  {
    if s.queue != [] && iter < maxIter {
      PushStepEstimate(g, s);
      IterateMonotone(g, PushStep(g, s), iter + 1, maxIter);
    }
  }

  /** With non-negative weights and alpha in [0, 1], a run keeps p and r
      non-negative. */
  lemma {:induction false} IterateNonNegative(g: Params, s: State, iter: nat, maxIter: nat)
    requires WellFormed(g) && Fits(g, s) && iter <= maxIter
    requires Csc.NonNegative(g.w) && 0.0 <= g.alpha <= 1.0
    requires Vectors.NonNegative(s.p) && Vectors.NonNegative(s.r)
    ensures Vectors.NonNegative(Iterate(g, s, iter, maxIter).last.p)
    ensures Vectors.NonNegative(Iterate(g, s, iter, maxIter).last.r)
    decreases maxIter - iter
  {
    if s.queue != [] && iter < maxIter {
      PushStepNonNegative(g, s);
      IterateNonNegative(g, PushStep(g, s), iter + 1, maxIter);
    }
  }

  /** When every degree equals its column weight sum, no push changes the
      total mass. */
  lemma {:induction false} IterateConservesMass(g: Params, s: State, iter: nat, maxIter: nat)
    requires WellFormed(g) && Fits(g, s) && iter <= maxIter && DegreesMatch(g)
    ensures Mass(Iterate(g, s, iter, maxIter).last) == Mass(s)
    decreases maxIter - iter
  {
    if s.queue != [] && iter < maxIter {
      PushStepMass(g, s);
      if s.r[s.queue[0]] > Threshold(g, s.queue[0]) {
        MassChangeSameWeight(g, s.r[s.queue[0]], Csc.ColSum(g.w, s.queue[0]), g.d[s.queue[0]]);
      }
      IterateConservesMass(g, PushStep(g, s), iter + 1, maxIter);
    }
  }

  lemma MassChangeSameWeight(g: Params, ru: real, cs: real, du: real)
    requires du != 0.0 && cs == du
    ensures MassChange(g, ru, cs, du) == 0.0
  {
    assert cs / du == 1.0;
  }

  /** A push never increases the total mass at a node whose column weighs no
      more than its degree (alpha <= 1, r_node >= 0). */
  lemma MassChangeNonPositive(g: Params, ru: real, cs: real, du: real)
    requires du > 0.0 && cs <= du && g.alpha <= 1.0 && ru >= 0.0
    ensures MassChange(g, ru, cs, du) <= 0.0
  {
    RealArith.MulNonNeg(1.0 - g.alpha, ru);
    RealArith.DivNonNeg((1.0 - g.alpha) * ru, 2.0);
    assert cs / du <= 1.0;
    var h := Retained(g, ru);
    assert h * (cs / du - 1.0) <= 0.0 by {
      RealArith.MulNonNeg(h, 1.0 - cs / du);
    }
  }

  /** When every column weighs no more than its node's degree, a run never
      increases the total mass (for admissible parameters: a node is pushed
      only when its residual is above a positive threshold). */
  lemma {:induction false} IterateMassNonIncreasing(g: Params, s: State, iter: nat, maxIter: nat)
    requires WellFormed(g) && Fits(g, s) && iter <= maxIter && Admissible(g)
    requires forall u :: 0 <= u < g.w.n ==> Csc.ColSum(g.w, u) <= g.d[u]
    ensures Mass(Iterate(g, s, iter, maxIter).last) <= Mass(s)
    decreases maxIter - iter
  {
    if s.queue != [] && iter < maxIter {
      PushStepMass(g, s);
      var node := s.queue[0];
      if s.r[node] > Threshold(g, node) {
        PositiveCommit(g, node, s.r[node]);
        MassChangeNonPositive(g, s.r[node], Csc.ColSum(g.w, node), g.d[node]);
      }
      IterateMassNonIncreasing(g, PushStep(g, s), iter + 1, maxIter);
    }
  }

  /** With degrees equal to column sums, p and r of the result together
      hold exactly the seed's mass. */
  lemma ApprConservesMass(g: Params, seed: seq<real>, maxIter: nat)
    requires WellFormed(g) && |seed| == g.w.n && DegreesMatch(g)
    ensures var out := ApprSpec(g, seed, maxIter);
            Vectors.Sum(out.p) + Vectors.Sum(out.r) == Vectors.Sum(seed)
  {
    IterateConservesMass(g, InitState(g, seed), 0, maxIter);
    Vectors.SumZeros(g.w.n);
  }

  /** For admissible parameters p of the result is non-negative, whatever
      the seed. */
  lemma ApprNonNegativeP(g: Params, seed: seq<real>, maxIter: nat)
    requires WellFormed(g) && |seed| == g.w.n && Admissible(g)
    ensures Vectors.NonNegative(ApprSpec(g, seed, maxIter).p)
  {
    IterateMonotone(g, InitState(g, seed), 0, maxIter);
  }

  /** With admissible parameters, non-negative weights and a non-negative
      seed, r of the result is non-negative too. */
  lemma ApprNonNegativeR(g: Params, seed: seq<real>, maxIter: nat)
    requires WellFormed(g) && |seed| == g.w.n && Admissible(g)
    requires Csc.NonNegative(g.w) && Vectors.NonNegative(seed)
    ensures Vectors.NonNegative(ApprSpec(g, seed, maxIter).r)
  {
    IterateNonNegative(g, InitState(g, seed), 0, maxIter);
  }
}
