/** How both drivers choose among repeated runs (smartmatch.py `main`,
    match.py `match_n_times`): they keep a run only when its score is
    strictly lower than the best one so far, so the run kept is the first of
    the least-scoring ones. */
module Selection {

  /** The run a strictly-lower-replaces loop keeps: the first position of a
      least score. */
  function FirstMin(scores: seq<int>): (k: nat)
    requires scores != []
    ensures k < |scores|
    ensures forall i :: 0 <= i < |scores| ==> scores[k] <= scores[i]
    ensures forall i :: 0 <= i < k ==> scores[i] > scores[k]
  {
    if |scores| == 1 then 0
    else
      var k := FirstMin(scores[..|scores| - 1]);
      assert forall i :: 0 <= i < |scores| - 1 ==> scores[..|scores| - 1][i] == scores[i];
      if scores[|scores| - 1] < scores[k] then |scores| - 1 else k
  }

  /** The first least score is the only position that is least and has no
      equal score before it: ties keep the earliest run. */
  lemma FirstMinIsUnique(scores: seq<int>, k: nat)
    requires k < |scores|
    requires forall i :: 0 <= i < |scores| ==> scores[k] <= scores[i]
    requires forall i :: 0 <= i < k ==> scores[i] > scores[k]
    ensures FirstMin(scores) == k
  {
    var m := FirstMin(scores);
    assert !(m < k) && !(k < m);
  }

  /** One more run: it takes over exactly when its score is strictly below
      the best so far. */
  lemma FirstMinStep(scores: seq<int>, x: int)
    requires scores != []
    ensures FirstMin(scores + [x]) == if x < scores[FirstMin(scores)] then |scores| else FirstMin(scores)
  {
    assert (scores + [x])[..|scores|] == scores;
  }

  /** How many runs `match_n_times` performs when it stops after the first
      run that leaves nobody unplaced. */
  function Performed(counts: seq<nat>): (n: nat)
    ensures n <= |counts|
    ensures forall i :: 0 <= i < n - 1 ==> counts[i] > 0
    ensures n < |counts| ==> n > 0 && counts[n - 1] == 0
    ensures counts != [] ==> n > 0
  {
    if counts == [] then 0
    else if counts[0] == 0 then 1
    else 1 + Performed(counts[1..])
  }

  /** The count of runs is pinned down by where the first run that leaves
      nobody unplaced is: just past it, or every run when there is none. */
  lemma {:induction false} PerformedIsUnique(counts: seq<nat>, n: nat)
    requires 0 < n <= |counts|
    requires forall i :: 0 <= i < n - 1 ==> counts[i] > 0
    requires n < |counts| ==> counts[n - 1] == 0
    ensures Performed(counts) == n
  {
    if n > 1 {
      PerformedIsUnique(counts[1..], n - 1);
    }
  }
}
