/** The deferred-acceptance engine `SmartMatch` (smartmatch.py): a pool of
    students proposing to sessions along their lists of choices, each session
    keeping the best students by grade, and the students whose lists run out
    ending up unassigned. The sessions are given as a sequence whose positions
    stand for the keys of the source's dictionary. */
module SmartMatching {
  import opened Optional
  import opened Students
  import opened SmartStudents
  import opened SmartSessions
  import opened DeferredAcceptance
  import opened Presorting
  import opened Keys

  /** The body of the `try` in `match` once the session is known: a session
      with room takes the student; a full one pops its least holder, and the
      higher grade of the two, the newcomer only when strictly higher, is
      admitted while the other comes `back` with its cursor moved on. */
  method Propose(session: SmartSession, student: SmartStudent) returns (back: Option<SmartStudent>)
    requires session.Valid()
    modifies session
    ensures session.Valid()
    ensures Proposed(old(session.roster), old(session.orderCounter), session.space, student,
                     session.roster, session.orderCounter, back)
  {
    if session.HasSpace() {
      var _ := session.AddStudent(student);
      back := None;
    } else {
      var popped := session.Pop();
      var worstMatch := popped.value;
      if student.Grade() > worstMatch.Grade() {
        var _ := session.AddStudent(student);
        back := Some(worstMatch.IncrCurrentChoice());
      } else {
        var _ := session.AddStudent(worstMatch);
        back := Some(student.IncrCurrentChoice());
      }
    }
  }

  /** The inner loop of the tally phase of `prematch`: the choices `xs` of
      the student at pool position i, one after the other; a choice naming a
      session counts towards its tally, and among the first `topN` also puts
      i on its list. */
  method TallyChoices(names: seq<string>, xs: seq<string>, i: nat, topN: int,
                      lists: seq<seq<nat>>, tallies0: seq<int>)
    returns (topLists: seq<seq<nat>>, sessionTallies: seq<int>)
    requires |lists| == |names| && |tallies0| == |names|
    requires forall a, b :: 0 <= a < b < |names| ==> names[a] != names[b]
    ensures topLists == ListsAt(lists, names, xs, i, |xs|, topN)
    ensures sessionTallies == TalliesAt(tallies0, names, xs, |xs|)
  {
    topLists, sessionTallies := lists, tallies0;
    var pref := 0;
    ListsAtStart(lists, names, xs, i, topN);
    TalliesAtStart(tallies0, names, xs);
    while pref < |xs|
      invariant 0 <= pref <= |xs|
      invariant topLists == ListsAt(lists, names, xs, i, pref, topN)
      invariant sessionTallies == TalliesAt(tallies0, names, xs, pref)
    {
      var choice := xs[pref];
      var found := Lookup(names, choice);
      if found.Some? {
        var j := found.value;
        if pref < topN {
          ListsAtStep(lists, names, xs, i, pref, topN, topLists, j);
          topLists := topLists[j := topLists[j] + [i]];
        } else {
          ListsAtSame(lists, names, xs, i, pref, topN);
        }
        TalliesAtStep(tallies0, names, xs, pref, sessionTallies, j);
        sessionTallies := sessionTallies[j := sessionTallies[j] + 1];
      } else {
        ListsAtSame(lists, names, xs, i, pref, topN);
        TalliesAtSame(tallies0, names, xs, pref);
      }
      pref := pref + 1;
    }
  }

  /** Session j of `c` ends with roster r' and counter n': it admitted
      `s` when `ok`, and is unchanged otherwise. */
  lemma AdmitOrNot(c: Config, j: nat, s: SmartStudent, r': seq<SmartStudent>, n': int, ok: bool)
    requires j < |c.rosters| && j < |c.counters|
    requires ok ==> r' == c.rosters[j] + [s.SetOrder(c.counters[j])] && n' == c.counters[j] - 1
    requires !ok ==> r' == c.rosters[j] && n' == c.counters[j]
    ensures c.(rosters := c.rosters[j := r'], counters := c.counters[j := n']) == if ok then Admit(c, j, s) else c
  {
    if !ok {
      assert c.rosters[j := r'] == c.rosters && c.counters[j := n'] == c.counters;
    }
  }

  /** Moving one element from the set still to do to the set done. */
  lemma MoveOne(all: set<nat>, left: set<nat>, x: nat)
    requires x in left && left <= all
    ensures (all - left) + {x} == all - (left - {x}) && left - {x} <= all
  {
  }

  class SmartMatch {
    const classNumbers: bool
    const sessions: seq<SmartSession>
    var students: seq<SmartStudent>
    var unassigned: seq<SmartStudent>
    var tallies: Option<seq<int>>

    /** The dictionary key of session j. */
    function Names(): (r: seq<string>)
      ensures |r| == |sessions|
      ensures forall j :: 0 <= j < |sessions| ==> r[j] == sessions[j].name
    {
      seq(|sessions|, j requires 0 <= j < |sessions| => sessions[j].name)
    }

    function Spaces(): (r: seq<nat>)
      ensures |r| == |sessions|
      ensures forall j :: 0 <= j < |sessions| ==> r[j] == sessions[j].space
    {
      seq(|sessions|, j requires 0 <= j < |sessions| => sessions[j].space)
    }

    function Rosters(): (r: seq<seq<SmartStudent>>)
      reads sessions
      ensures |r| == |sessions|
      ensures forall j :: 0 <= j < |sessions| ==> r[j] == sessions[j].roster
    {
      seq(|sessions|, j requires 0 <= j < |sessions| reads sessions => sessions[j].roster)
    }

    function Counters(): (r: seq<int>)
      reads sessions
      ensures |r| == |sessions|
      ensures forall j :: 0 <= j < |sessions| ==> r[j] == sessions[j].orderCounter
    {
      seq(|sessions|, j requires 0 <= j < |sessions| reads sessions => sessions[j].orderCounter)
    }

    /** The whole state of a run, as a value. */
    function Snapshot(): Config
      reads this, sessions
    {
      Config(students, unassigned, Rosters(), Counters())
    }

    /** The sessions are distinct objects with distinct names (the keys of a
        dictionary), and the run invariant holds; it makes each session valid. */
    ghost predicate Valid()
      reads this, sessions
    {
      Distinct() && WellFormed(Snapshot(), Names(), Spaces())
    }

    predicate Distinct() {
      (forall i, j :: 0 <= i < j < |sessions| ==> sessions[i] != sessions[j])
      && (forall i, j :: 0 <= i < j < |sessions| ==> sessions[i].name != sessions[j].name)
    }

    /** `SmartMatch.__init__`: nobody is unassigned and there are no tallies
        yet. */
    constructor (students: seq<SmartStudent>, sessions: seq<SmartSession>, integerClassNames: bool)
      requires forall i, j :: 0 <= i < j < |sessions| ==> sessions[i] != sessions[j]
      requires forall i, j :: 0 <= i < j < |sessions| ==> sessions[i].name != sessions[j].name
      requires forall j :: 0 <= j < |sessions| ==> sessions[j].Valid()
      ensures Valid()
      ensures this.students == students && this.sessions == sessions && classNumbers == integerClassNames
      ensures unassigned == [] && tallies == None
    {
      classNumbers := integerClassNames;
      this.students := students;
      this.sessions := sessions;
      unassigned := [];
      tallies := None;
    }

    /** The proposal of the student at position k of the pool `c` (already
        taken out of it) to session j, the one its cursor names, and the
        student coming back from it, if any, rejoining the pool. */
    method Enter(ghost c: Config, ghost k: nat, j: nat, student: SmartStudent)
      requires WellFormed(c, Names(), Spaces()) && Distinct()
      requires k < |c.pool| && c.pool[k] == student && !student.Exhausted()
      requires Lookup(Names(), GetChoice(student.base, student.currentChoice)) == Some(j)
      requires Snapshot() == c.(pool := Rest(c.pool, k))
      modifies this, sessions[j]
      ensures Snapshot() == Next(c, Names(), Spaces(), k)
    {
      ghost var rs, ns := Rosters(), Counters();
      assert rs[j] == sessions[j].roster && ns[j] == sessions[j].orderCounter;
      var back := Propose(sessions[j], student);
      students := students + ToSeq(back);
      forall i | 0 <= i < |sessions| && i != j
        ensures sessions[i].roster == rs[i] && sessions[i].orderCounter == ns[i]
      {
        assert sessions[i] != sessions[j];
      }
      NextProposed(c, Names(), Spaces(), k, j, sessions[j].roster, sessions[j].orderCounter, back);
      assert Rosters() == rs[j := sessions[j].roster];
      assert Counters() == ns[j := sessions[j].orderCounter];
    }

    /** One pass of the `while self.students` loop: some student is taken
        from the pool (the set's `pop` is arbitrary; `k` says which), and the
        run moves on exactly as `Next` says. */
    method Step() returns (ghost k: nat)
      requires Valid() && students != []
      modifies this, sessions
      ensures Valid()
      ensures k < |old(students)|
      ensures Snapshot() == Next(old(Snapshot()), Names(), Spaces(), k)
    {
      ghost var c := Snapshot();
      var idx :| 0 <= idx < |students|;
      k := idx;
      NextWellFormed(c, Names(), Spaces(), k);
      var student := students[idx];
      students := Rest(students, idx);
      var pref := student.currentChoice;
      if pref < |student.base.choices| {
        var choice := GetChoice(student.base, pref);
        var found := Lookup(Names(), choice);
        if found.None? {
          students := students + [student.IncrCurrentChoice()];
          assert Snapshot() == c.(pool := Rest(c.pool, k) + [student.IncrCurrentChoice()]);
        } else {
          Enter(c, k, found.value, student);
        }
      } else {
        unassigned := unassigned + [student];
        assert Snapshot() == c.(pool := Rest(c.pool, k), unassigned := c.unassigned + [student]);
      }
      assert Snapshot() == Next(c, Names(), Spaces(), k);
    }

    /** `match`: run until the pool is empty, then score the run by the sum
        of the unassigned students' grades. Nobody is lost or duplicated on the
        way, and only students whose lists ran out are unassigned. */
    method Match() returns (matchSuccess: int)
      requires Valid()
      modifies this, sessions
      ensures Valid()
      ensures students == []
      ensures Everyone(Snapshot()) == old(Everyone(Snapshot()))
      ensures forall i :: 0 <= i < |unassigned| ==> unassigned[i].Exhausted()
      ensures matchSuccess == GradeSum(unassigned)
    {
      ghost var floor := Floor(Snapshot());
      while students != []
        invariant Valid()
        invariant Everyone(Snapshot()) == old(Everyone(Snapshot()))
        invariant AtLeast(Snapshot(), floor)
        decreases Potential(Snapshot()), |students|, Weight(students, floor)
      {
        ghost var c := Snapshot();
        ghost var k := Step();
        NextKeepsEveryoneAndDecreases(c, Names(), Spaces(), k, floor);
      }
      matchSuccess := Score();
    }

    /** The closing `for` loop of `match`: the grades of the unassigned
        students, added up in order. */
    method Score() returns (matchSuccess: int)
      ensures matchSuccess == GradeSum(unassigned)
    {
      matchSuccess := 0;
      var i := 0;
      while i < |unassigned|
        invariant 0 <= i <= |unassigned|
        invariant matchSuccess == GradeSum(unassigned[..i])
      {
        assert unassigned[..i + 1][..i] == unassigned[..i];
        matchSuccess := matchSuccess + unassigned[i].Grade();
        i := i + 1;
      }
      assert unassigned[..i] == unassigned;
    }

    /** The inner loop of the pre-placement in `prematch`: the student is
        registered into the session of the first of its first `topN` choices
        (the empty string past the end of its list) that is a key of
        `preSessions`, if there is one. Registration can fail on a full
        session, and `ok` says whether it did not. */
    method PlaceFirst(student: SmartStudent, preSessions: map<string, nat>, topN: int)
      returns (placed: bool, ghost d: nat, ghost ok: bool)
      requires Valid()
      requires forall n :: n in preSessions ==> preSessions[n] < |sessions|
      modifies sessions
      ensures Valid()
      ensures var p := FirstPre(student.base, preSessions.Keys, topN, 0);
              placed == (p >= 0)
              && (placed ==> d == preSessions[GetChoice(student.base, p)] && d < |sessions|)
      ensures placed ==> ok == (|old(sessions[d].roster)| < sessions[d].space)
      ensures Snapshot() == if placed && ok then Admit(old(Snapshot()), d, student) else old(Snapshot())
    {
      ghost var c := Snapshot();
      ghost var pre := preSessions.Keys;
      var pref := 0;
      placed := false;
      d, ok := 0, false;
      while !placed && pref < topN
        invariant 0 <= pref
        invariant Valid()
        invariant !placed ==> FirstPre(student.base, pre, topN, 0) == FirstPre(student.base, pre, topN, pref)
        invariant placed ==> pref >= 1 && FirstPre(student.base, pre, topN, 0) == pref - 1
                             && d == preSessions[GetChoice(student.base, pref - 1)] && d < |sessions|
                             && ok == (|c.rosters[d]| < sessions[d].space)
        invariant Snapshot() == if placed && ok then Admit(c, d, student) else c
        decreases if placed then 0 else 1, topN - pref
      {
        var choice := GetChoice(student.base, pref);
        if choice in preSessions {
          var session := preSessions[choice];
          d := session;
          ok := Register(session, student);
          placed := true;
        }
        pref := pref + 1;
      }
    }

    /** `register` (that is, `add_student`) on session j, seen from the run:
        only session j's roster and counter change, as `add_student` says. */
    method Register(j: nat, student: SmartStudent) returns (ok: bool)
      requires Valid() && j < |sessions|
      modifies sessions[j]
      ensures Valid()
      ensures ok == (|old(sessions[j].roster)| < sessions[j].space)
      ensures ok ==> Snapshot() == Admit(old(Snapshot()), j, student)
      ensures !ok ==> Snapshot() == old(Snapshot())
    {
      ghost var c := Snapshot();
      ghost var rs, ns := Rosters(), Counters();
      assert rs[j] == sessions[j].roster && ns[j] == sessions[j].orderCounter;
      ok := sessions[j].AddStudent(student);
      forall i | 0 <= i < |sessions| && i != j
        ensures sessions[i].roster == rs[i] && sessions[i].orderCounter == ns[i]
      {
        assert sessions[i] != sessions[j];
      }
      assert c == Config(students, unassigned, rs, ns);
      ghost var r', n' := sessions[j].roster, sessions[j].orderCounter;
      assert Rosters() == rs[j := r'];
      assert Counters() == ns[j := n'];
      ghost var snap := c.(rosters := rs[j := r'], counters := ns[j := n']);
      assert Snapshot() == snap;
      AdmitOrNot(c, j, student, r', n', ok);
      if ok {
        AdmitKeepsWellFormed(c, Names(), Spaces(), j, student);
      }
      assert WellFormed(snap, Names(), Spaces());
    }

    /** The tally phase of `prematch`: for every session, the pool positions
        of the students naming it among their first `topN` choices (once per
        naming), and how often it is named among all choices. Only names of
        sessions are counted. */
    method Tally(topN: int) returns (topLists: seq<seq<nat>>, sessionTallies: seq<int>)
      requires Distinct()
      ensures |topLists| == |sessions| && |sessionTallies| == |sessions|
      ensures forall j :: 0 <= j < |sessions| ==> topLists[j] == TopList(students, Names()[j], topN)
      ensures forall j :: 0 <= j < |sessions| ==> sessionTallies[j] == Demand(students, Names()[j])
    {
      var names := Names();
      assert forall a, b :: 0 <= a < b < |names| ==> names[a] != names[b];
      topLists := seq(|sessions|, _ => []);
      sessionTallies := seq(|sessions|, _ => 0);
      var i := 0;
      while i < |students|
        invariant 0 <= i <= |students|
        invariant |topLists| == |sessions| && |sessionTallies| == |sessions|
        invariant forall j :: 0 <= j < |sessions| ==> topLists[j] == TopList(students[..i], names[j], topN)
        invariant forall j :: 0 <= j < |sessions| ==> sessionTallies[j] == Demand(students[..i], names[j])
      {
        var xs := students[i].base.choices;
        topLists, sessionTallies := TallyChoices(names, xs, i, topN, topLists, sessionTallies);
        forall j | 0 <= j < |sessions|
          ensures topLists[j] == TopList(students[..i + 1], names[j], topN)
          ensures sessionTallies[j] == Demand(students[..i + 1], names[j])
        {
          assert xs[..|xs|] == xs;
          TallyStep(students, i, names[j], topN);
        }
        i := i + 1;
      }
      assert students[..i] == students;
    }

    /** The selection phase of `prematch`: every session whose list is not
        empty and no longer than its capacity sends everybody on its list to
        `pre_placement_students`, and becomes a pre-placement session under
        its own name. */
    method Qualify(topLists: seq<seq<nat>>, topN: int) returns (pending: set<nat>, preSessions: map<string, nat>)
      requires |topLists| == |sessions|
      requires forall j :: 0 <= j < |sessions| ==> topLists[j] == TopList(students, Names()[j], topN)
      ensures pending == Pending(students, Names(), Spaces(), topN)
      ensures preSessions.Keys == PreNames(students, Names(), Spaces(), topN, |sessions|)
      ensures forall n :: n in preSessions ==> preSessions[n] < |sessions| && Names()[preSessions[n]] == n
    {
      var names, spaces := Names(), Spaces();
      pending, preSessions := {}, map[];
      var j := 0;
      while j < |sessions|
        invariant 0 <= j <= |sessions|
        invariant pending == ClaimedUpTo(students, names, spaces, topN, j)
        invariant preSessions.Keys == PreNames(students, names, spaces, topN, j)
        invariant forall n :: n in preSessions ==> preSessions[n] < |sessions| && names[preSessions[n]] == n
      {
        ClaimedUpToStep(students, names, spaces, topN, j);
        PreNamesStep(students, names, spaces, topN, j);
        ghost var keys := preSessions.Keys;
        var totalChoices := |topLists[j]|;
        if totalChoices > 0 && spaces[j] >= totalChoices {
          pending := pending + set x | x in topLists[j];
          if names[j] !in preSessions {
            preSessions := preSessions[names[j] := j];
          }
          assert preSessions.Keys == keys + {names[j]};
        }
        j := j + 1;
      }
    }

    /** Every session holds nobody. */
    predicate Empty()
      reads sessions
    {
      forall j :: 0 <= j < |sessions| ==> sessions[j].roster == []
    }

    /** The placement phase of `prematch`: the students of `pending` are
        taken one at a time (the set's `pop` is arbitrary) and registered by
        `PlaceFirst`; each one placed is to leave the pool, and every one of
        them is placed. When every session starts empty, no registration
        fails: each roster ends up holding exactly the pending students
        headed for it, and nobody is lost. */
    method PlaceAll(pending: set<nat>, preSessions: map<string, nat>, topN: int) returns (gone: set<nat>)
      requires Valid()
      requires pending == Pending(students, Names(), Spaces(), topN)
      requires preSessions.Keys == PreNames(students, Names(), Spaces(), topN, |sessions|)
      requires forall n :: n in preSessions ==> preSessions[n] < |sessions| && Names()[preSessions[n]] == n
      modifies sessions
      ensures Valid()
      ensures gone == pending
      ensures old(Empty()) ==> PlacedIn(Snapshot(), students, gone, Names(), preSessions.Keys, topN, old(Everyone(Snapshot())))
    {
      ghost var total := Everyone(Snapshot());
      ghost var empty := Empty();
      if empty {
        StartPlaced(preSessions.Keys, topN);
      }
      var left := pending;
      gone := {};
      while left != {}
        invariant Valid()
        invariant left <= pending && gone == pending - left
        invariant empty ==> PlacedIn(Snapshot(), students, gone, Names(), preSessions.Keys, topN, total)
        decreases |left|
      {
        var x :| x in left;
        var placed := PlaceStudent(x, preSessions, topN, gone, empty, total);
        MoveOne(pending, left, x);
        if placed {
          gone := gone + {x};
        } else {
          assert false;
        }
        left := left - {x};
      }
    }

    /** Before any placement, empty sessions hold exactly nobody. */
    lemma StartPlaced(pre: set<string>, topN: int)
      requires Empty()
      ensures PlacedIn(Snapshot(), students, {}, Names(), pre, topN, Everyone(Snapshot()))
    {
      forall j | 0 <= j < |sessions| ensures Bases(sessions[j].roster) == HeadedTo(students, Dests(students, Names(), pre, topN), {}, j) {
        HeadedToNone(students, Dests(students, Names(), pre, topN), j);
      }
      RemainingNone(students);
    }

    /** One pass of the placement loop, for the pending student at position
        x of the pool: it is always placed, and with sessions that started
        empty the registration succeeds. */
    method PlaceStudent(x: nat, preSessions: map<string, nat>, topN: int,
                        ghost gone: set<nat>, ghost empty: bool, ghost total: multiset<Student>)
      returns (placed: bool)
      requires Valid()
      requires preSessions.Keys == PreNames(students, Names(), Spaces(), topN, |sessions|)
      requires forall n :: n in preSessions ==> preSessions[n] < |sessions| && Names()[preSessions[n]] == n
      requires gone <= Pending(students, Names(), Spaces(), topN)
      requires x in Pending(students, Names(), Spaces(), topN) && x !in gone
      requires empty ==> PlacedIn(Snapshot(), students, gone, Names(), preSessions.Keys, topN, total)
      modifies sessions
      ensures Valid() && placed
      ensures empty ==> PlacedIn(Snapshot(), students, gone + {x}, Names(), preSessions.Keys, topN, total)
    {
      ghost var names, spaces := Names(), Spaces();
      assert forall a, b :: 0 <= a < b < |names| ==> names[a] != names[b];
      ghost var c := Snapshot();
      ClaimedHasDest(students, names, spaces, topN, x);
      var student := students[x];
      ghost var p := FirstPre(student.base, preSessions.Keys, topN, 0);
      ghost var dest := preSessions[GetChoice(student.base, p)];
      LookupDistinct(names, names[dest], dest);
      if empty {
        PlaceInto(c, students, names, spaces, topN, gone, x, dest, total);
      }
      ghost var d, ok;
      placed, d, ok := PlaceFirst(student, preSessions, topN);
    }

    /** `prematch`: tally the choices, pick the sessions whose demand among
        the first `topN` choices fits their capacity, and register every
        student naming one of them there, taking it out of the pool. The
        tallies of all choices are kept. With sessions that start empty, as
        they do in a run, no registration fails: every roster holds exactly
        the pre-placed students headed for it, and nobody is lost. */
    method Prematch(topN: int)
      requires Valid()
      modifies this, sessions
      ensures Valid()
      ensures tallies.Some? && |tallies.value| == |sessions|
      ensures forall j :: 0 <= j < |sessions| ==> tallies.value[j] == Demand(old(students), Names()[j])
      ensures unassigned == old(unassigned)
      ensures students == Remaining(old(students), Pending(old(students), Names(), Spaces(), topN))
      ensures old(Empty()) ==>
                Everyone(Snapshot()) == old(Everyone(Snapshot()))
                && forall j :: 0 <= j < |sessions| ==>
                     Bases(sessions[j].roster)
                     == HeadedTo(old(students),
                                 Dests(old(students), Names(), PreNames(old(students), Names(), Spaces(), topN, |sessions|), topN),
                                 Pending(old(students), Names(), Spaces(), topN), j)
    {
      ghost var pool := students;
      var sessionTallies, gone := Presort(topN);
      ghost var c := Snapshot();
      students := Remaining(students, gone);
      tallies := Some(sessionTallies);
      assert Snapshot() == c.(pool := Remaining(pool, gone));
    }

    /** The three phases of `prematch` before the pool is updated: the
        tallies, and the positions of the students to take out of the pool. */
    method Presort(topN: int) returns (sessionTallies: seq<int>, gone: set<nat>)
      requires Valid()
      modifies sessions
      ensures Valid()
      ensures |sessionTallies| == |sessions|
      ensures forall j :: 0 <= j < |sessions| ==> sessionTallies[j] == Demand(students, Names()[j])
      ensures gone == Pending(students, Names(), Spaces(), topN)
      ensures old(Empty()) ==>
                PlacedIn(Snapshot(), students, gone, Names(), PreNames(students, Names(), Spaces(), topN, |sessions|),
                         topN, old(Everyone(Snapshot())))
    {
      var topLists;
      topLists, sessionTallies := Tally(topN);
      var pending, preSessions := Qualify(topLists, topN);
      gone := PlaceAll(pending, preSessions, topN);
    }
  }
}
