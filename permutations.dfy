// Configurations of the linear assignment problem: position k is worker k,
// the value at position k is the task assigned to that worker.

module Permutations {

  /** Each of the n workers gets a task in 0..n-1 and no task is given twice. */
  predicate IsPermutation(s: seq<int>, n: nat)
  {
    |s| == n
    && (forall k :: 0 <= k < |s| ==> 0 <= s[k] < n)
    && Distinct(s)
  }

  predicate Distinct(s: seq<int>)
  {
    forall k, l :: 0 <= k < l < |s| ==> s[k] != s[l]
  }

  /** The tasks a configuration assigns to somebody. */
  function Tasks(s: seq<int>): (r: set<int>)
    ensures forall k :: 0 <= k < |s| ==> s[k] in r
  {
    set k | 0 <= k < |s| :: s[k]
  }

  /** Worker k does task k: the configuration a solver starts from. */
  function Identity(n: nat): (r: seq<int>)
    ensures IsPermutation(r, n)
    ensures forall k :: 0 <= k < n ==> r[k] == k
  {
    seq(n, k => k)
  }

  /** The configuration with the tasks of workers i and j exchanged. */
  function Swap(s: seq<int>, i: nat, j: nat): (r: seq<int>)
    requires i < |s| && j < |s|
    ensures |r| == |s| && r[i] == s[j] && r[j] == s[i]
    ensures forall k :: 0 <= k < |s| && k != i && k != j ==> r[k] == s[k]
  {
    s[i := s[j]][j := s[i]]
  }

  /** The positions at which two configurations of equal length disagree. */
  function Differences(s: seq<int>, t: seq<int>): (d: set<nat>)
    requires |s| == |t|
    ensures forall k: nat :: k in d <==> k < |s| && s[k] != t[k]
  {
    set k: nat | k < |s| && s[k] != t[k]
  }

  /** A transposition of a permutation is a permutation. */
  lemma SwapKeepsPermutation(s: seq<int>, n: nat, i: nat, j: nat)
    requires IsPermutation(s, n)
    requires i < n && j < n
    ensures IsPermutation(Swap(s, i, j), n)
  {
  }

  /** Swapping the same two workers again restores the configuration. */
  lemma SwapIsInvolution(s: seq<int>, i: nat, j: nat)
    requires i < |s| && j < |s|
    ensures Swap(Swap(s, i, j), i, j) == s
  {
  }

  /** On a permutation, a swap of two distinct workers changes exactly those two positions. */
  lemma SwapChangesExactlyTwo(s: seq<int>, n: nat, i: nat, j: nat)
    requires IsPermutation(s, n)
    requires i < n && j < n && i != j
    ensures Differences(s, Swap(s, i, j)) == {i, j}
  {
  }

  /** Each task 0..n-1 is assigned to exactly one worker of a permutation. */
  lemma {:induction false} PermutationIsOnto(s: seq<int>, n: nat)
    requires IsPermutation(s, n)
    ensures forall v :: 0 <= v < n ==> v in Tasks(s)
  {
    var all := Tasks(Identity(n));
    assert Tasks(s) <= all by {
      forall v | v in Tasks(s) ensures v in all {
        assert Identity(n)[v] == v;
      }
    }
    DistinctTasksSize(s);
    DistinctTasksSize(Identity(n));
    EqualSizeSubset(Tasks(s), all);
    forall v | 0 <= v < n ensures v in Tasks(s) {
      assert Identity(n)[v] == v;
    }
  }

  lemma EqualSizeSubset(a: set<int>, b: set<int>)
    requires a <= b && |a| >= |b|
    ensures a == b
  {
    var missing := b - a;
    assert b == a + missing;
  }

  lemma {:induction false} DistinctTasksSize(s: seq<int>)
    requires Distinct(s)
    ensures |Tasks(s)| == |s|
  {
    if |s| > 0 {
      var prefix := s[..|s| - 1];
      var last := s[|s| - 1];
      DistinctTasksSize(prefix);
      assert last !in Tasks(prefix) by {
        forall k | 0 <= k < |prefix| ensures prefix[k] != last {
          assert prefix[k] == s[k];
        }
      }
      assert Tasks(s) == Tasks(prefix) + {last} by {
        forall k | 0 <= k < |prefix| ensures prefix[k] == s[k] { }
      }
    }
  }
}
