# ConfigurationSolver: a simulated-annealing search over worker/task assignments

This project models `ConfigurationSolver`, the search component of a linear
assignment solver. N workers are assigned to N tasks. A configuration is an
array whose position k is worker k and whose value is that worker's task. The
solver keeps a current configuration (the identity, never changed after
construction), a best configuration and an iteration counter. Each call of
`runSearch` does one simulated-annealing step:

- it derives a temperature from the counter;
- when that temperature is exactly zero (the frozen case), it returns the best
  configuration and only advances the counter;
- otherwise it swaps two distinct workers in a copy of the best configuration,
  keeps that copy as the new best when its score is strictly higher or an
  acceptance draw succeeds, advances the counter and returns the copy.

The project has three files:

- `permutations.dfy` (module `Permutations`): what a valid configuration is (a
  permutation of 0..N-1), the identity, the swap of two workers, and the facts
  about them.
- `annealing.dfy` (module `Annealing`): one step as a function on values
  (`Step`), the redraw loop of the neighbour move as a function (`FirstOther`,
  `PickSwap`), a run of several steps (`Run`), and the lemmas about them.
- `configuration_solver.dfy` (module `Solver`): the class `ConfigurationSolver`.
  It has the two arrays and the counter as fields. Its methods are proved
  against `Annealing.Step` and `Annealing.PickSwap`. Module `SolverClient` has
  a client that drives the class through the scenario of `FiveWorkerScenario`:
  five workers from the identity, with workers 1 and 3 swapped.

How the parts that are not deterministic are represented:

- The `Environment` argument becomes two constants fixed at construction: the
  number of workers `n` and the fitness function `score` (higher is better).
- The solver's own cooling schedule `1000.0 * 0.95^t` becomes a third constant,
  `temperatureIsZero`. For a counter value, it says whether the schedule
  evaluates to exactly zero.
- The random indices are a caller-supplied sequence `draws` of `nextInt(n)`
  results, all in 0..n-1. The first draw is the first index. The do-while loop
  takes later draws until one differs from the first.
- The Metropolis draw is a boolean `accept`. It is reached only when the score
  does not strictly improve, as with the short-circuit `||` of the source.
  When the scores are equal, the bound is `exp(0) == 1.0`, and `Math.random()`
  always lies below it. So a move to an equally good candidate is always
  accepted (`StepAcceptance`). Only for a worse candidate does `accept`
  decide.
- The score difference is computed in `double` in the source. The scores are
  Java `int`s, so `deltaE > 0` holds exactly when the candidate's score is
  strictly greater. The model compares integers.
- `iterationCounter` is a Java `int`. `Inc32` increments it with 32-bit
  wrap-around.

Failure paths, following the code:

- With N = 0, `nextInt(0)` throws `IllegalArgumentException` before the counter
  is advanced. The model returns `ThrewIllegalArgument` and leaves the state
  unchanged.
- With N = 1, every draw is 0 and the redraw loop never ends. For every finite
  draw sequence the model returns `StillRedrawing` with the state unchanged
  (`SingleWorkerNeverPicks`).
- The constructor accepts N < 2. With N < 2 the failure only shows up when a
  step that is not frozen tries to pick a move.

Aliasing, following the code:

- In the frozen case, `runSearch` returns the best-configuration array itself.
  `getBestConfiguration` does the same.
- In the annealing case, it returns a fresh candidate array. When the candidate
  is accepted, a separate clone becomes the best configuration.

## Model

| member | source | states |
|---|---|---|
| `Solver.ConfigurationSolver.constructor` | src/com/simulatedannealing/agent/ConfigurationSolver.java:22-31 | `configuration` is the identity 0..N-1 filled by the loop; `bestConfiguration` is an equal but distinct, fresh array; the counter starts at 1 |
| `Solver.ConfigurationSolver.RunSearch` | src/com/simulatedannealing/agent/ConfigurationSolver.java:53-70 | the new best configuration and counter are those of `Step` on the old state; it returns what `Step` returns; frozen: returns the best array itself and keeps it; annealing: returns a fresh candidate distinct from the best; the object invariant (best is a permutation, `configuration` stays the identity) is kept |
| `Solver.ConfigurationSolver.GetBestConfiguration` | src/com/simulatedannealing/agent/ConfigurationSolver.java:81-83 | returns the best array itself, a permutation of 0..N-1, and changes nothing |
| `Solver.ConfigurationSolver.GenerateNeighborSolution` | src/com/simulatedannealing/agent/ConfigurationSolver.java:85-102 | when the draws pick workers i and j, returns a fresh array equal to the input with i and j swapped, and the input is untouched; throws for N = 0; still redrawing when no later draw differs from the first |
| `Annealing.Inc32` | src/com/simulatedannealing/agent/ConfigurationSolver.java:68 | `iterationCounter++` on an `int` is x + 1 modulo 2^32 |
| `Annealing.FirstOther` | src/com/simulatedannealing/agent/ConfigurationSolver.java:92-94 | the do-while redraw stops at the first later draw that differs from the first index, and runs on while every draw equals it |
| `Annealing.PickSwap` | src/com/simulatedannealing/agent/ConfigurationSolver.java:90-94 | picked indices are in 0..N-1 and distinct; `nextInt` fails exactly when N = 0 |
| `Annealing.PickSwapSucceeds` | src/com/simulatedannealing/agent/ConfigurationSolver.java:90-94 | the move picks two workers if and only if some later draw differs from the first |
| `Annealing.SingleWorkerNeverPicks` | src/com/simulatedannealing/agent/ConfigurationSolver.java:92-94 | with one worker the redraw loop never stops, whatever the draws |
| `Annealing.Step` | src/com/simulatedannealing/agent/ConfigurationSolver.java:53-70 | a step never changes the length of the best configuration |
| `Annealing.StepKeepsPermutation` | src/com/simulatedannealing/agent/ConfigurationSolver.java:61-65 | the kept best configuration and the returned candidate are permutations when the best one was |
| `Annealing.StepCounter` | src/com/simulatedannealing/agent/ConfigurationSolver.java:56-68 | a call that returns advances the counter by exactly one in both branches; a call that throws or keeps redrawing changes no state |
| `Annealing.FrozenStep` | src/com/simulatedannealing/agent/ConfigurationSolver.java:56-59 | frozen: returns the best configuration, keeps it, and only the counter changes |
| `Annealing.StepMovesByTransposition` | src/com/simulatedannealing/agent/ConfigurationSolver.java:61 | not frozen: the candidate is the best configuration with two distinct positions swapped, and it differs from it in exactly those two positions |
| `Annealing.StepAcceptance` | src/com/simulatedannealing/agent/ConfigurationSolver.java:62-67 | a candidate that scores at least as well always becomes the best (a strict improvement by the first operand of `||`, an equal score because `Math.random() < exp(0) == 1.0` always holds); a worse one becomes the best exactly when the acceptance draw succeeds |
| `Annealing.Run` | src/com/simulatedannealing/simulation/RunSimulation.java:30-41 | repeated calls never change the length of the best configuration |
| `Annealing.RunKeepsPermutation` | src/com/simulatedannealing/agent/ConfigurationSolver.java:53-70 | the best configuration is a permutation after any number of calls |
| `Annealing.RunCounter` | src/com/simulatedannealing/agent/ConfigurationSolver.java:56-68 | over any sequence of calls the counter grows by exactly the number of calls that return, frozen or not, so by k after k returning calls (while it stays within `int`) |
| `Annealing.FrozenIsTerminal` | src/com/simulatedannealing/agent/ConfigurationSolver.java:55-59 | once the temperature is zero at every counter value from some point on, no later call changes the best configuration |
| `Annealing.RunWithoutAcceptanceNeverWorsens` | src/com/simulatedannealing/agent/ConfigurationSolver.java:62-67 | when the acceptance draw never succeeds, the best score never decreases over any number of calls |
| `Annealing.FiveWorkerScenario` | src/com/simulatedannealing/agent/ConfigurationSolver.java:61-69 | from [0,1,2,3,4] with draws picking workers 1 and 3 and a failing acceptance draw, the candidate is [0,3,2,1,4]; it becomes the best exactly when it scores at least as well |
| `Annealing.CounterWrapLeavesFrozenRegime` | src/com/simulatedannealing/agent/ConfigurationSolver.java:55-68 | when the schedule is zero exactly from some counter value on, a frozen call at the largest `int` wraps the counter to the smallest one, where the next call is no longer frozen and replaces the best configuration |
| `Solver.CloneOf` | src/com/simulatedannealing/agent/ConfigurationSolver.java:30 | `clone()` gives a fresh array equal to its argument |
| `Permutations.Identity` | src/com/simulatedannealing/agent/ConfigurationSolver.java:26-28 | the initial assignment gives worker k task k and is a permutation |
| `Permutations.Swap` | src/com/simulatedannealing/agent/ConfigurationSolver.java:97-99 | the two positions exchange their tasks and every other position keeps its task |
| `Permutations.SwapKeepsPermutation` | src/com/simulatedannealing/agent/ConfigurationSolver.java:97-99 | a swap of two workers of a permutation is a permutation |
| `Permutations.SwapIsInvolution` | src/com/simulatedannealing/agent/ConfigurationSolver.java:97-99 | swapping the same two workers again restores the configuration |
| `Permutations.SwapChangesExactlyTwo` | src/com/simulatedannealing/agent/ConfigurationSolver.java:97-99 | on a permutation, swapping two distinct workers changes exactly those two positions |
| `Permutations.PermutationIsOnto` | src/com/simulatedannealing/agent/ConfigurationSolver.java:7-10 | in a permutation every task 0..N-1 is assigned to some worker, so each task is assigned exactly once |

## Left out

- The cooling schedule `1000.0 * 0.95^t` and the Metropolis probability `exp(deltaE / temperature)` are floating point. They are replaced by `temperatureIsZero` (a function of the counter) and the boolean `accept`.
- `Math.random()` and `new Random()` are replaced by caller-supplied draws. A finite draw sequence stands for the random stream. "Still redrawing" means the loop has not stopped within the supplied draws.
- The environment's `calcScore` and `getNumWorkers` are not part of this model. They become the constants `score` (a total function on sequences) and `n`. A score function that throws is not modelled. A negative worker count, which would make `new int[n]` throw, is excluded by `n: nat`.
- The score of the best configuration computed before the frozen test, and its recomputation after an acceptance, are left out. Both only feed `currentCost`, and the recomputation is a dead store.
- A caller that writes into an array returned by `runSearch` or `getBestConfiguration` is not modelled. Every method requires the object invariant, which such a write could break when it hits the shared best array.
- The driver `RunSimulation` (map loading, printing, writing files, catching exceptions per step) is not part of this model. `Run` models only its sequence of calls.
- Run: a call whose supplied draws run out (`StillRedrawing`) is skipped with the state unchanged, and the run goes on to the next call. In the code such a call keeps drawing until it finishes (N >= 2) or never returns (N = 1), so `Run` admits more runs than the code; every lemma about `Run` holds for all of them.
- FrozenIsTerminal: holds only while the counter does not wrap past the largest `int`. After about 2^31 calls the counter becomes negative, and the schedule no longer gives zero there. `CounterWrapLeavesFrozenRegime` shows the solver leaving the frozen regime at that point.
- RunCounter: stated while the counter stays within `int`. Past that point `Inc32` wraps.
- With a worse candidate, `accept` is free. The model does not tie the draw's success to the probability `exp(deltaE / temperature)`. This includes the +Infinity temperature after a counter wrap, where the code always accepts.
