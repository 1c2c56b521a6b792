/** The driver loop of smartmatch.py (`main`): every iteration loads the
    students and the sessions afresh, builds a new `SmartMatch`, pre-sorts
    when asked to, runs `match`, and keeps the run when its score (the sum
    of the unassigned students' grades) is strictly lower than the best so
    far. What an iteration loads is given: the shuffle and the files are
    outside the model. */
module BestOfRuns {
  import opened Optional
  import opened Students
  import opened SmartStudents
  import opened SmartSessions
  import opened DeferredAcceptance
  import opened SmartMatching
  import opened Selection

  /** What one iteration loads: the students as `define_students` returns
      them after its shuffle, and the entries (name, capacity) of the
      dictionary `define_sessions` builds, in its order. */
  datatype Trial = Trial(students: seq<SmartStudent>, entries: seq<(string, nat)>)

  /** What `define_sessions` guarantees of its dictionary: names in normal
      form, each once, and only positive capacities. */
  predicate Loaded(t: Trial) {
    (forall j :: 0 <= j < |t.entries| ==> IsNormal(t.entries[j].0) && t.entries[j].1 > 0)
    && (forall i, j :: 0 <= i < j < |t.entries| ==> t.entries[i].0 != t.entries[j].0)
  }

  /** Every session is valid and empty, under the name and with the
      capacity of its entry, and no session is listed twice. */
  ghost predicate Blank(sessions: seq<SmartSession>, entries: seq<(string, nat)>)
    reads set s | s in sessions
  {
    |sessions| == |entries|
    && (forall j :: 0 <= j < |sessions| ==>
          sessions[j].Valid() && sessions[j].roster == []
          && sessions[j].name == entries[j].0 && sessions[j].space == entries[j].1)
    && (forall i, j :: 0 <= i < j < |sessions| ==> sessions[i] != sessions[j])
  }

  /** One more blank session, new to the list, for one more entry. */
  lemma BlankAppend(sessions: seq<SmartSession>, entries: seq<(string, nat)>, s: SmartSession, e: (string, nat))
    requires Blank(sessions, entries) && s !in sessions
    requires s.Valid() && s.roster == [] && s.name == e.0 && s.space == e.1
    ensures Blank(sessions + [s], entries + [e])
  {
  }

  /** `SmartSession(name, space)` on a name `define_sessions` has already
      normalised: the session keeps the name as it is. */
  method NewSession(e: (string, nat)) returns (s: SmartSession)
    requires IsNormal(e.0) && e.1 > 0
    ensures fresh(s) && s.Valid() && s.roster == [] && s.name == e.0 && s.space == e.1
  {
    NormalIsFixed(e.0);
    s := new SmartSession(e.0, e.1);
  }

  /** The `SmartSession(name, space)` calls of `define_sessions`: one new,
      empty session per entry, under the entry's own name. */
  method NewSessions(entries: seq<(string, nat)>) returns (sessions: seq<SmartSession>)
    requires forall j :: 0 <= j < |entries| ==> IsNormal(entries[j].0) && entries[j].1 > 0
    ensures forall i :: 0 <= i < |sessions| ==> fresh(sessions[i])
    ensures Blank(sessions, entries)
  {
    sessions := [];
    for j := 0 to |entries|
      invariant forall i :: 0 <= i < |sessions| ==> fresh(sessions[i])
      invariant Blank(sessions, entries[..j])
    {
      var s := NewSession(entries[j]);
      assert Blank(sessions, entries[..j]);
      BlankAppend(sessions, entries[..j], s, entries[j]);
      assert entries[..j + 1] == entries[..j] + [entries[j]];
      sessions := sessions + [s];
    }
    assert entries[..|entries|] == entries;
  }

  /** Rosters that are all empty hold nobody. */
  lemma {:induction false} HeldNone(rs: seq<seq<SmartStudent>>)
    requires forall j :: 0 <= j < |rs| ==> rs[j] == []
    ensures Held(rs) == multiset{}
    decreases |rs|
  {
    if rs != [] {
      HeldNone(rs[..|rs| - 1]);
      assert Bases(rs[|rs| - 1]) == multiset{};
    }
  }

  /** A run that has finished `match` on what `t` loaded: the pool is
      empty, everybody loaded is still somewhere, the sessions are those of
      the entries, and only students whose lists ran out are unassigned. */
  ghost predicate Finished(m: SmartMatch, t: Trial)
    reads m, m.sessions
  {
    m.students == [] && Everyone(m.Snapshot()) == Bases(t.students)
    && (forall i :: 0 <= i < |m.unassigned| ==> m.unassigned[i].Exhausted())
    && |m.sessions| == |t.entries|
    && (forall j :: 0 <= j < |m.sessions| ==> m.sessions[j].name == t.entries[j].0 && m.sessions[j].space == t.entries[j].1)
  }

  /** One iteration of the loop: new sessions, a new `SmartMatch`,
      `prematch` when `--presort` was given a non-zero value (Python's
      truth test), then `match`, whose score comes back as `result`. */
  method RunOnce(t: Trial, presort: Option<int>, numeric: bool) returns (m: SmartMatch, result: int)
    requires Loaded(t)
    ensures fresh(m) && Finished(m, t)
    ensures result == GradeSum(m.unassigned)
  {
    var sessions := NewSessions(t.entries);
    m := new SmartMatch(t.students, sessions, numeric);
    forall j | 0 <= j < |sessions| ensures m.Rosters()[j] == [] {
    }
    HeldNone(m.Rosters());
    assert Bases([]) == multiset{};
    assert Everyone(m.Snapshot()) == Bases(t.students);
    assert m.Empty();
    if presort.Some? && presort.value != 0 {
      m.Prematch(presort.value);
    }
    result := m.Match();
  }

  /** `RunOnce` while an earlier run `prev`, finished on `pt` and leaving
      `pu` unassigned, is kept aside: that run is left as it was. */
  method RunBeside(t: Trial, presort: Option<int>, numeric: bool,
                   ghost prev: SmartMatch?, ghost pt: Trial, ghost pu: seq<SmartStudent>)
    returns (m: SmartMatch, result: int)
    requires Loaded(t)
    requires prev != null ==> Finished(prev, pt) && prev.unassigned == pu
    ensures fresh(m) && Finished(m, t)
    ensures result == GradeSum(m.unassigned)
    ensures prev != null ==> Finished(prev, pt) && prev.unassigned == pu
  {
    m, result := RunOnce(t, presort, numeric);
  }

  /** The score of every run, in order. */
  function Scores(leftOver: seq<seq<SmartStudent>>): (r: seq<int>)
    ensures |r| == |leftOver| && forall i :: 0 <= i < |leftOver| ==> r[i] == GradeSum(leftOver[i])
  {
    seq(|leftOver|, i requires 0 <= i < |leftOver| => GradeSum(leftOver[i]))
  }

  /** One more run adds its score at the end. */
  lemma ScoresAppend(leftOver: seq<seq<SmartStudent>>, u: seq<SmartStudent>)
    ensures Scores(leftOver + [u]) == Scores(leftOver) + [GradeSum(u)]
  {
    assert |Scores(leftOver + [u])| == |Scores(leftOver) + [GradeSum(u)]|;
    forall i | 0 <= i < |leftOver| + 1 ensures Scores(leftOver + [u])[i] == (Scores(leftOver) + [GradeSum(u)])[i] {
      if i < |leftOver| {
        assert (leftOver + [u])[i] == leftOver[i];
      }
    }
  }

  /** What a run leaves unassigned: students it loaded, each with its list
      run out. */
  predicate LeftOver(u: seq<SmartStudent>, t: Trial) {
    (forall i :: 0 <= i < |u| ==> u[i].Exhausted()) && Bases(u) <= Bases(t.students)
  }

  /** Every run so far left over students of its own trial. */
  predicate Accounted(leftOver: seq<seq<SmartStudent>>, trials: seq<Trial>) {
    |leftOver| <= |trials| && forall k :: 0 <= k < |leftOver| ==> LeftOver(leftOver[k], trials[k])
  }

  lemma AccountedAppend(leftOver: seq<seq<SmartStudent>>, trials: seq<Trial>, u: seq<SmartStudent>)
    requires Accounted(leftOver, trials) && |leftOver| < |trials|
    requires LeftOver(u, trials[|leftOver|])
    ensures Accounted(leftOver + [u], trials)
  {
    assert forall k :: 0 <= k < |leftOver| ==> (leftOver + [u])[k] == leftOver[k];
  }

  lemma FinishedLeftOver(m: SmartMatch, t: Trial)
    requires Finished(m, t)
    ensures LeftOver(m.unassigned, t)
  {
    var c := m.Snapshot();
    assert Everyone(c) == Bases(c.pool) + Bases(c.unassigned) + Held(c.rosters);
  }

  /** The bookkeeping of `main`'s loop after the runs in `leftOver`: the
      best score is infinity (`None`) before the first run, and afterwards
      the score of run `kept`, the first run with the least score. */
  ghost predicate Best(leftOver: seq<seq<SmartStudent>>, trials: seq<Trial>, kept: nat, bestResult: Option<int>) {
    Accounted(leftOver, trials)
    && (leftOver == [] ==> bestResult == None)
    && (leftOver != [] ==> kept == FirstMin(Scores(leftOver)) && bestResult == Some(GradeSum(leftOver[kept])))
  }

  /** One more run, scoring `GradeSum(u)`: it takes over exactly when its
      score is below the best so far, and the bookkeeping still holds. */
  lemma BestStep(leftOver: seq<seq<SmartStudent>>, trials: seq<Trial>, kept: nat, bestResult: Option<int>, u: seq<SmartStudent>)
    requires Best(leftOver, trials, kept, bestResult) && |leftOver| < |trials|
    requires LeftOver(u, trials[|leftOver|])
    ensures leftOver != [] ==> kept < |leftOver|
    ensures var take := bestResult.None? || GradeSum(u) < bestResult.value;
            Best(leftOver + [u], trials, if take then |leftOver| else kept,
                 if take then Some(GradeSum(u)) else bestResult)
  {
    AccountedAppend(leftOver, trials, u);
    ScoresAppend(leftOver, u);
    if leftOver != [] {
      FirstMinStep(Scores(leftOver), GradeSum(u));
      assert (leftOver + [u])[kept] == leftOver[kept];
    } else {
      assert Scores([u]) == [GradeSum(u)];
    }
  }

  /** `main`'s loop over `range(0, iterate)`: iteration i runs on what
      `trials[i]` holds, and a run replaces the best one only when its score
      is strictly lower (the best score starts at infinity). The run kept is
      the first one with the least score; `leftOver` holds, for every run,
      the students it left unassigned. With no iteration nothing is kept. */
  method BestOf(trials: seq<Trial>, iterate: int, presort: Option<int>, numeric: bool)
    returns (bestMatch: SmartMatch?, ghost leftOver: seq<seq<SmartStudent>>)
    requires iterate <= |trials|
    requires forall i :: 0 <= i < |trials| ==> Loaded(trials[i])
    ensures |leftOver| == if iterate > 0 then iterate else 0
    ensures Accounted(leftOver, trials)
    ensures iterate <= 0 ==> bestMatch == null
    ensures iterate > 0 ==>
              var k := FirstMin(Scores(leftOver));
              bestMatch != null && Finished(bestMatch, trials[k]) && bestMatch.unassigned == leftOver[k]
  {
    bestMatch := null;
    var bestResult: Option<int> := None;
    leftOver := [];
    ghost var kept: nat := 0;
    for i := 0 to if iterate > 0 then iterate else 0
      invariant |leftOver| == i && Best(leftOver, trials, kept, bestResult)
      invariant i == 0 ==> bestMatch == null
      invariant kept < if i > 0 then i else 1
      invariant i > 0 ==> bestMatch != null && Finished(bestMatch, trials[kept]) && bestMatch.unassigned == leftOver[kept]
    {
      var smartMatch, result := RunBeside(trials[i], presort, numeric, bestMatch, trials[kept], if i > 0 then leftOver[kept] else []);
      ghost var u := smartMatch.unassigned;
      FinishedLeftOver(smartMatch, trials[i]);
      BestStep(leftOver, trials, kept, bestResult, u);
      if bestResult == None || result < bestResult.value {
        bestResult := Some(result);
        bestMatch := smartMatch;
        kept := i;
      } else {
        assert (leftOver + [u])[kept] == leftOver[kept];
      }
      leftOver := leftOver + [u];
    }
  }
}
