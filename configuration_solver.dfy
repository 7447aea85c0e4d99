// The solver object: a current configuration, a best configuration and an
// iteration counter, updated in place by one search step per call.

module Solver {
  import opened Permutations
  import opened Annealing

  class ConfigurationSolver {
    /** The number of workers (and of tasks) the environment reports. */
    const n: nat
    /** The environment's fitness function; higher is better. */
    const score: seq<int> -> int
    /** Whether the cooling schedule at a counter value yields exactly zero. */
    const temperatureIsZero: Int32 -> bool

    var configuration: array<int>
    var bestConfiguration: array<int>
    var iterationCounter: Int32

    ghost predicate Valid()
      reads this, configuration, bestConfiguration
    {
      configuration != bestConfiguration
      && configuration[..] == Identity(n)
      && IsPermutation(bestConfiguration[..], n)
    }

    /** The state a call of the search reads and writes. */
    ghost function Current(): State
      reads this, bestConfiguration
    {
      State(bestConfiguration[..], iterationCounter)
    }

    /** Both configurations start as the identity, in two separate arrays. */
    constructor (numWorkers: nat, score: seq<int> -> int, temperatureIsZero: Int32 -> bool)
      ensures Valid()
      ensures n == numWorkers && this.score == score && this.temperatureIsZero == temperatureIsZero
      ensures fresh(configuration) && fresh(bestConfiguration)
      ensures configuration[..] == Identity(numWorkers) && bestConfiguration[..] == Identity(numWorkers)
      ensures iterationCounter == 1
    {
      var initial := new int[numWorkers];
      for i := 0 to initial.Length
        invariant forall k :: 0 <= k < i ==> initial[k] == k
      {
        initial[i] := i;
      }
      assert initial[..] == Identity(numWorkers);
      var best := CloneOf(initial);
      n := numWorkers;
      this.score := score;
      this.temperatureIsZero := temperatureIsZero;
      iterationCounter := 1;
      configuration := initial;
      bestConfiguration := best;
    }

    /**
     * One search step. Not frozen: swaps two distinct workers of a copy of
     * the best configuration, keeps the copy as the new best when it scores
     * strictly higher or the Metropolis test passes, and returns the copy.
     * Frozen: returns the best configuration itself. Either way the counter
     * goes up by one; a call that throws or never stops redrawing changes
     * nothing.
     */
    method RunSearch(draws: seq<int>, accept: bool) returns (r: Call<array<int>>)
      requires Valid()
      requires DrawsBelow(draws, n)
      modifies this
      ensures Valid()
      ensures configuration == old(configuration)
      ensures var t := Step(old(Current()), temperatureIsZero, score, draws, accept);
        Current() == t.next
        && r.Completed? == t.out.Completed?
        && r.ThrewIllegalArgument? == t.out.ThrewIllegalArgument?
        && (r.Completed? ==> r.value[..] == t.out.value)
      ensures temperatureIsZero(old(iterationCounter)) ==>
        r == Completed(bestConfiguration) && bestConfiguration == old(bestConfiguration)
      ensures !temperatureIsZero(old(iterationCounter)) && r.Completed? ==>
        fresh(r.value) && r.value != bestConfiguration
        && (bestConfiguration == old(bestConfiguration) || fresh(bestConfiguration))
      ensures !r.Completed? ==> bestConfiguration == old(bestConfiguration)
    {
      StepKeepsPermutation(Current(), temperatureIsZero, score, draws, accept);
      if temperatureIsZero(iterationCounter) {
        iterationCounter := Inc32(iterationCounter);
        return Completed(bestConfiguration);
      }

      var next := GenerateNeighborSolution(bestConfiguration, draws);
      if !next.Completed? {
        return match next
          case ThrewIllegalArgument => ThrewIllegalArgument
          case _ => StillRedrawing;
      }
      var candidate := next.value;
      var deltaE := score(candidate[..]) - score(bestConfiguration[..]);
      if deltaE > 0 || MetropolisAccepts(deltaE, accept) {
        bestConfiguration := CloneOf(candidate);
      }
      iterationCounter := Inc32(iterationCounter);
      r := Completed(candidate);
    }

    /** The best configuration, shared with the caller; nothing changes. */
    method GetBestConfiguration() returns (r: array<int>)
      requires Valid()
      ensures r == bestConfiguration
      ensures IsPermutation(r[..], n)
    {
      r := bestConfiguration;
    }

    /**
     * A copy of `current` with two distinct workers' tasks swapped: the first
     * draw is one worker, and draws are repeated until one differs from it.
     */
    method GenerateNeighborSolution(current: array<int>, draws: seq<int>) returns (r: Call<array<int>>)
      requires current.Length == n
      requires DrawsBelow(draws, n)
      ensures match PickSwap(n, draws)
        case Picked(i, j) => r.Completed? && fresh(r.value) && r.value[..] == Swap(current[..], i, j)
        case BoundNotPositive => r == ThrewIllegalArgument
        case DrawsExhausted => r == StillRedrawing
    {
      var neighbor := CloneOf(current);
      if n == 0 {
        return ThrewIllegalArgument;
      }
      if |draws| < 2 {
        return StillRedrawing;
      }
      var swapIndex1 := draws[0];
      var swapIndex2 := draws[1];
      var used := 2;
      while swapIndex1 == swapIndex2
        invariant 2 <= used <= |draws|
        invariant swapIndex2 == draws[used - 1]
        invariant forall l :: 1 <= l < used - 1 ==> draws[l] == swapIndex1
        decreases |draws| - used
      {
        if used == |draws| {
          return StillRedrawing;
        }
        swapIndex2 := draws[used];
        used := used + 1;
      }
      assert FirstOther(draws, swapIndex1, 1) == Some(used - 1);

      var temp := neighbor[swapIndex1];
      neighbor[swapIndex1] := neighbor[swapIndex2];
      neighbor[swapIndex2] := temp;
      r := Completed(neighbor);
    }
  }

  /** A fresh array with the same contents (Java's `clone`). */
  method CloneOf(a: array<int>) returns (b: array<int>)
    ensures fresh(b) && b[..] == a[..]
  {
    b := new int[a.Length](k requires 0 <= k < a.Length reads a => a[k]);
  }
}

module SolverClient {
  import opened Permutations
  import opened Annealing
  import opened Solver

  /**
   * Five workers, a schedule that is never frozen, draws picking workers 1
   * and 3 and a failing acceptance draw: the first call returns [0,3,2,1,4],
   * which becomes the best configuration only when it scores at least as well.
   */
  method FiveWorkers(score: seq<int> -> int)
  {
    var solver := new ConfigurationSolver(5, score, t => false);
    var first := solver.GetBestConfiguration();
    assert first[..] == [0, 1, 2, 3, 4];
    var r := solver.RunSearch([1, 3], false);
    FiveWorkerScenario(t => false, score);
    assert r.Completed? && r.value[..] == [0, 3, 2, 1, 4];
    var best := solver.GetBestConfiguration();
    assert best[..] == if score([0, 3, 2, 1, 4]) >= score([0, 1, 2, 3, 4])
                       then [0, 3, 2, 1, 4] else [0, 1, 2, 3, 4];
    assert solver.iterationCounter == 2;
  }
}
