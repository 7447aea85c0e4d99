// One simulated-annealing step of the configuration solver as a function on
// values, and a run of several steps. The solver class is proved against
// these definitions.

module Annealing {
  import opened Permutations

  const MinInt32: int := -0x8000_0000
  const MaxInt32: int := 0x7fff_ffff

  /** A Java `int`. */
  newtype Int32 = x: int | MinInt32 <= x <= MaxInt32

  /** `x++` on a Java `int`: x + 1, wrapping from the largest to the smallest value. */
  function Inc32(x: Int32): (r: Int32)
    ensures (r as int - x as int - 1) % 0x1_0000_0000 == 0
  {
    if x as int == MaxInt32 then MinInt32 as Int32 else x + 1
  }

  datatype Option<T> = None | Some(value: T)

  /**
   * How a call of the solver ends: it returns a value, `nextInt` throws
   * IllegalArgumentException because the bound (the number of workers) is
   * not positive, or the redraw loop is still drawing when the supplied
   * draws run out.
   */
  datatype Call<T> = Completed(value: T) | ThrewIllegalArgument | StillRedrawing

  /** The draws of `nextInt(n)` all lie in 0..n-1. */
  predicate DrawsBelow(draws: seq<int>, n: nat)
  {
    forall k :: 0 <= k < |draws| ==> 0 <= draws[k] < n
  }

  /** The first position from k on whose draw differs from x: the do-while redraw loop. */
  function FirstOther(draws: seq<int>, x: int, k: nat): (m: Option<nat>)
    requires k <= |draws|
    ensures m.Some? ==> k <= m.value < |draws| && draws[m.value] != x
    ensures m.Some? ==> forall l :: k <= l < m.value ==> draws[l] == x
    ensures m.None? ==> forall l :: k <= l < |draws| ==> draws[l] == x
    decreases |draws| - k
  {
    if k == |draws| then None
    else if draws[k] != x then Some(k)
    else FirstOther(draws, x, k + 1)
  }

  /** The two workers the neighbour move swaps, or why it picks none. */
  datatype Pick = Picked(i: nat, j: nat) | BoundNotPositive | DrawsExhausted

  /**
   * The first draw is the first index; the second is the first later draw
   * that differs from it.
   */
  function PickSwap(n: nat, draws: seq<int>): (p: Pick)
    requires DrawsBelow(draws, n)
    ensures p.Picked? ==> p.i < n && p.j < n && p.i != p.j
    ensures p.BoundNotPositive? <==> n == 0
  {
    if n == 0 then BoundNotPositive
    else if |draws| == 0 then DrawsExhausted
    else match FirstOther(draws, draws[0], 1)
      case None => DrawsExhausted
      case Some(m) => Picked(draws[0], draws[m])
  }

  /** The move picks two workers exactly when some later draw differs from the first. */
  lemma PickSwapSucceeds(n: nat, draws: seq<int>)
    requires DrawsBelow(draws, n)
    ensures PickSwap(n, draws).Picked? <==>
      |draws| > 0 && exists m :: 1 <= m < |draws| && draws[m] != draws[0]
  {
  }

  /** With a single worker every draw is 0, so the redraw loop never stops. */
  lemma SingleWorkerNeverPicks(draws: seq<int>)
    requires DrawsBelow(draws, 1)
    ensures PickSwap(1, draws) == DrawsExhausted
  {
  }

  /**
   * The Metropolis test `Math.random() < exp(deltaE / temperature)`, reached
   * only when the score does not improve. With deltaE == 0 the bound is
   * exp(0) == 1.0, which every draw of `Math.random()` lies below; with
   * deltaE < 0 the supplied outcome of the draw decides.
   */
  function MetropolisAccepts(deltaE: int, draw: bool): bool
    requires deltaE <= 0
  {
    deltaE == 0 || draw
  }

  /** What the solver keeps between calls. */
  datatype State = State(best: seq<int>, counter: Int32)

  /** The new state and what the call gives back. */
  datatype Transition = Transition(next: State, out: Call<seq<int>>)

  /**
   * One call of the search. `temperatureIsZero` says whether the cooling
   * schedule at a counter value yields a temperature of exactly zero,
   * `draws` are the successive results of `nextInt(n)` and `accept` is the
   * outcome of the Metropolis draw, consulted only when the score gets worse.
   */
  function Step(st: State, temperatureIsZero: Int32 -> bool, score: seq<int> -> int,
                draws: seq<int>, accept: bool): (t: Transition)
    requires DrawsBelow(draws, |st.best|)
    ensures |t.next.best| == |st.best|
  {
    if temperatureIsZero(st.counter) then
      Transition(State(st.best, Inc32(st.counter)), Completed(st.best))
    else match PickSwap(|st.best|, draws)
      case BoundNotPositive => Transition(st, ThrewIllegalArgument)
      case DrawsExhausted => Transition(st, StillRedrawing)
      case Picked(i, j) =>
        var candidate := Swap(st.best, i, j);
        var deltaE := score(candidate) - score(st.best);
        var best := if deltaE > 0 || MetropolisAccepts(deltaE, accept) then candidate else st.best;
        Transition(State(best, Inc32(st.counter)), Completed(candidate))
  }

  /** Every configuration a step keeps or returns is a permutation when the best one was. */
  lemma StepKeepsPermutation(st: State, temperatureIsZero: Int32 -> bool, score: seq<int> -> int,
                             draws: seq<int>, accept: bool)
    requires IsPermutation(st.best, |st.best|)
    requires DrawsBelow(draws, |st.best|)
    ensures var t := Step(st, temperatureIsZero, score, draws, accept);
      IsPermutation(t.next.best, |st.best|)
      && (t.out.Completed? ==> IsPermutation(t.out.value, |st.best|))
  {
    var p := PickSwap(|st.best|, draws);
    if p.Picked? {
      SwapKeepsPermutation(st.best, |st.best|, p.i, p.j);
    }
  }

  /**
   * A call that returns advances the counter by one (as a Java int); a call
   * that throws or is still redrawing leaves the whole state as it was.
   */
  lemma StepCounter(st: State, temperatureIsZero: Int32 -> bool, score: seq<int> -> int,
                    draws: seq<int>, accept: bool)
    requires DrawsBelow(draws, |st.best|)
    ensures var t := Step(st, temperatureIsZero, score, draws, accept);
      (t.out.Completed? ==> t.next.counter == Inc32(st.counter))
      && (!t.out.Completed? ==> t.next == st)
  {
  }

  /** Frozen: the best configuration is returned and kept; only the counter moves. */
  lemma FrozenStep(st: State, temperatureIsZero: Int32 -> bool, score: seq<int> -> int,
                   draws: seq<int>, accept: bool)
    requires DrawsBelow(draws, |st.best|)
    requires temperatureIsZero(st.counter)
    ensures var t := Step(st, temperatureIsZero, score, draws, accept);
      t == Transition(State(st.best, Inc32(st.counter)), Completed(st.best))
  {
  }

  /**
   * Not frozen: the returned candidate is the best configuration with two
   * distinct workers' tasks exchanged, and on a permutation it differs in
   * exactly those two positions.
   */
  lemma StepMovesByTransposition(st: State, temperatureIsZero: Int32 -> bool, score: seq<int> -> int,
                                 draws: seq<int>, accept: bool)
    requires IsPermutation(st.best, |st.best|)
    requires DrawsBelow(draws, |st.best|)
    requires !temperatureIsZero(st.counter)
    ensures var t := Step(st, temperatureIsZero, score, draws, accept);
      t.out.Completed? ==>
        exists i: nat, j: nat :: i < |st.best| && j < |st.best| && i != j
          && t.out.value == Swap(st.best, i, j)
          && Differences(st.best, t.out.value) == {i, j}
  {
  }

  /**
   * Not frozen and a candidate was drawn: a candidate that scores at least as
   * well always becomes the best; a worse one becomes the best exactly when
   * the acceptance draw succeeds.
   */
  lemma StepAcceptance(st: State, temperatureIsZero: Int32 -> bool, score: seq<int> -> int,
                       draws: seq<int>, accept: bool)
    requires DrawsBelow(draws, |st.best|)
    requires !temperatureIsZero(st.counter)
    ensures var t := Step(st, temperatureIsZero, score, draws, accept);
      t.out.Completed? ==>
        (score(t.out.value) >= score(st.best) ==> t.next.best == t.out.value)
        && (score(t.out.value) < score(st.best) && !accept ==> t.next.best == st.best)
        && (score(t.out.value) < score(st.best) && accept ==> t.next.best == t.out.value)
  {
  }

  /** The inputs of one call: the index draws and the acceptance draw. */
  datatype StepInput = StepInput(draws: seq<int>, accept: bool)

  predicate InputsBelow(inputs: seq<StepInput>, n: nat)
  {
    forall k :: 0 <= k < |inputs| ==> DrawsBelow(inputs[k].draws, n)
  }

  /** The state after one call per input, in order. */
  function Run(st: State, temperatureIsZero: Int32 -> bool, score: seq<int> -> int,
               inputs: seq<StepInput>): (end: State)
    requires InputsBelow(inputs, |st.best|)
    ensures |end.best| == |st.best|
    decreases |inputs|
  {
    if inputs == [] then st
    else
      var next := Step(st, temperatureIsZero, score, inputs[0].draws, inputs[0].accept).next;
      Run(next, temperatureIsZero, score, inputs[1..])
  }

  /** The best configuration is a permutation after any number of calls. */
  lemma {:induction false} RunKeepsPermutation(st: State, temperatureIsZero: Int32 -> bool,
                                               score: seq<int> -> int, inputs: seq<StepInput>)
    requires IsPermutation(st.best, |st.best|)
    requires InputsBelow(inputs, |st.best|)
    ensures IsPermutation(Run(st, temperatureIsZero, score, inputs).best, |st.best|)
    decreases |inputs|
  {
    if inputs != [] {
      StepKeepsPermutation(st, temperatureIsZero, score, inputs[0].draws, inputs[0].accept);
      var next := Step(st, temperatureIsZero, score, inputs[0].draws, inputs[0].accept).next;
      RunKeepsPermutation(next, temperatureIsZero, score, inputs[1..]);
    }
  }

  /** How many of the calls return (rather than throw or keep redrawing). */
  function Completions(st: State, temperatureIsZero: Int32 -> bool, score: seq<int> -> int,
                       inputs: seq<StepInput>): (c: nat)
    requires InputsBelow(inputs, |st.best|)
    ensures c <= |inputs|
    decreases |inputs|
  {
    if inputs == [] then 0
    else
      var t := Step(st, temperatureIsZero, score, inputs[0].draws, inputs[0].accept);
      (if t.out.Completed? then 1 else 0) + Completions(t.next, temperatureIsZero, score, inputs[1..])
  }

  /**
   * The counter grows by exactly the number of calls that return, frozen or
   * not, as long as it does not pass the largest Java int; so after k calls
   * that each return it has grown by k.
   */
  lemma {:induction false} RunCounter(st: State, temperatureIsZero: Int32 -> bool,
                                      score: seq<int> -> int, inputs: seq<StepInput>)
    requires InputsBelow(inputs, |st.best|)
    requires st.counter as int + |inputs| <= MaxInt32
    ensures Run(st, temperatureIsZero, score, inputs).counter as int
            == st.counter as int + Completions(st, temperatureIsZero, score, inputs)
    decreases |inputs|
  {
    if inputs != [] {
      var t := Step(st, temperatureIsZero, score, inputs[0].draws, inputs[0].accept);
      StepCounter(st, temperatureIsZero, score, inputs[0].draws, inputs[0].accept);
      assert t.next.counter as int == st.counter as int + (if t.out.Completed? then 1 else 0);
      RunCounter(t.next, temperatureIsZero, score, inputs[1..]);
    }
  }

  /**
   * Once the temperature is zero at every counter value from some point on,
   * no later call changes the best configuration (while the counter does
   * not wrap around).
   */
  lemma {:induction false} FrozenIsTerminal(st: State, temperatureIsZero: Int32 -> bool,
                                            score: seq<int> -> int, inputs: seq<StepInput>, from: Int32)
    requires InputsBelow(inputs, |st.best|)
    requires forall t: Int32 :: from <= t ==> temperatureIsZero(t)
    requires from <= st.counter
    requires st.counter as int + |inputs| <= MaxInt32
    ensures Run(st, temperatureIsZero, score, inputs).best == st.best
    decreases |inputs|
  {
    if inputs != [] {
      assert temperatureIsZero(st.counter);
      var next := Step(st, temperatureIsZero, score, inputs[0].draws, inputs[0].accept).next;
      assert next == State(st.best, st.counter + 1);
      FrozenIsTerminal(next, temperatureIsZero, score, inputs[1..], from);
    }
  }

  /** When the acceptance draw never succeeds, the best score never decreases. */
  lemma {:induction false} RunWithoutAcceptanceNeverWorsens(st: State, temperatureIsZero: Int32 -> bool,
                                                            score: seq<int> -> int, inputs: seq<StepInput>)
    requires InputsBelow(inputs, |st.best|)
    requires forall k :: 0 <= k < |inputs| ==> !inputs[k].accept
    ensures score(Run(st, temperatureIsZero, score, inputs).best) >= score(st.best)
    decreases |inputs|
  {
    if inputs != [] {
      var next := Step(st, temperatureIsZero, score, inputs[0].draws, inputs[0].accept).next;
      assert !inputs[0].accept;
      assert score(next.best) >= score(st.best);
      RunWithoutAcceptanceNeverWorsens(next, temperatureIsZero, score, inputs[1..]);
    }
  }

  /**
   * Five workers starting from the identity, not frozen, the draws pick
   * workers 1 and 3, a failing acceptance draw: the candidate is [0,3,2,1,4]
   * and it becomes the best exactly when it scores at least as well as the
   * identity.
   */
  lemma FiveWorkerScenario(temperatureIsZero: Int32 -> bool, score: seq<int> -> int)
    requires !temperatureIsZero(1)
    ensures var t := Step(State([0, 1, 2, 3, 4], 1), temperatureIsZero, score, [1, 3], false);
      t.out == Completed([0, 3, 2, 1, 4])
      && t.next.counter == 2
      && t.next.best == (if score([0, 3, 2, 1, 4]) >= score([0, 1, 2, 3, 4])
                         then [0, 3, 2, 1, 4] else [0, 1, 2, 3, 4])
  {
    assert FirstOther([1, 3], 1, 1) == Some(1);
    assert Swap([0, 1, 2, 3, 4], 1, 3) == [0, 3, 2, 1, 4];
  }

  /**
   * The counter wraps: with a schedule that is zero exactly from some counter
   * value `from` on, a frozen call at the largest Java int moves the counter
   * to the smallest one, where the step is no longer frozen, and the next
   * call replaces the best configuration (there the temperature is
   * +Infinity, so the Metropolis draw always succeeds).
   */
  lemma CounterWrapLeavesFrozenRegime(from: Int32, temperatureIsZero: Int32 -> bool, score: seq<int> -> int)
    requires MinInt32 < from as int
    requires forall t: Int32 :: temperatureIsZero(t) <==> from <= t
    ensures var first := Step(State([0, 1], MaxInt32 as Int32), temperatureIsZero, score, [0, 1], true);
      first.next == State([0, 1], MinInt32 as Int32)
      && !temperatureIsZero(first.next.counter)
      && Step(first.next, temperatureIsZero, score, [0, 1], true).next.best == [1, 0]
  {
    assert temperatureIsZero(MaxInt32 as Int32);
    assert !temperatureIsZero(MinInt32 as Int32);
    assert FirstOther([0, 1], 0, 1) == Some(1);
    assert Swap([0, 1], 0, 1) == [1, 0];
  }
}
