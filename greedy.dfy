/** The older greedy engine of match.py: students are taken grade by grade,
    highest grade first, and each one is registered into the first of its
    choices that names a session with a seat left; those placed nowhere are
    reported by id. `match_n_times` repeats this and keeps the run leaving
    the fewest students unplaced. The sessions dictionary is a sequence of
    `Session` objects with distinct names; the students dictionary maps each
    grade to its list of students, in the order the run's shuffle left it. */
module Greedy {
  import opened Optional
  import opened Students
  import opened Keys
  import opened Sessions
  import opened Selection

  // ---------------------------------------------------------------------
  // The order students are handled in

  predicate IsMax(m: int, s: set<int>) {
    m in s && forall x :: x in s ==> x <= m
  }

  lemma EmptyIfNoMember(s: set<int>)
    ensures (forall y :: y !in s) ==> s == {}
  {
    if forall y :: y !in s {
      assert s == {};
    }
  }

  lemma {:induction false} MaxExists(s: set<int>)
    requires s != {}
    ensures exists m :: IsMax(m, s)
    decreases |s|
  {
    EmptyIfNoMember(s);
    var y :| y in s;
    if s == {y} {
      assert IsMax(y, s);
    } else {
      var t := s - {y};
      MaxExists(t);
      var m :| IsMax(m, t);
      var b := if y > m then y else m;
      forall x | x in s ensures x <= b {
        if x != y {
          assert x in t;
        }
      }
      assert IsMax(b, s);
    }
  }

  /** The highest grade. */
  function Max(s: set<int>): (m: int)
    requires s != {}
    ensures IsMax(m, s)
  {
    MaxExists(s);
    var m :| IsMax(m, s);
    m
  }

  /** `sorted(selections.keys(), key=lambda grade: -grade)`: every grade,
      once, from the highest down. */
  function Descending(keys: set<int>): (r: seq<int>)
    ensures |r| == |keys|
    ensures forall g :: g in r <==> g in keys
    ensures forall i, j :: 0 <= i < j < |r| ==> r[i] > r[j]
    decreases |keys|
  {
    if keys == {} then []
    else
      var m := Max(keys);
      var r := Descending(keys - {m});
      forall i | 0 <= i < |r| ensures r[i] < m {
        assert r[i] in keys - {m};
      }
      [m] + r
  }

  /** The students of the given grades, one grade's list after the other. */
  function Order(selections: map<int, seq<Student>>, grades: seq<int>): seq<Student>
    requires forall i :: 0 <= i < |grades| ==> grades[i] in selections
  {
    if grades == [] then [] else selections[grades[0]] + Order(selections, grades[1..])
  }

  /** Every list of `selections` holds students of its own grade, as the
      loader builds it. */
  predicate ByGrade(selections: map<int, seq<Student>>) {
    forall g, i :: g in selections && 0 <= i < |selections[g]| ==> selections[g][i].grade == g
  }

  /** Nobody in `o` comes after a student of a lower grade. */
  predicate GradesDescend(o: seq<Student>) {
    forall i, j :: 0 <= i < j < |o| ==> o[i].grade >= o[j].grade
  }

  predicate GradesAtMost(o: seq<Student>, g: int) {
    forall i :: 0 <= i < |o| ==> o[i].grade <= g
  }

  /** Students are handled from the highest grade down: nobody comes after
      a student of a lower grade. */
  lemma {:induction false} OrderDescends(selections: map<int, seq<Student>>, grades: seq<int>)
    requires ByGrade(selections)
    requires forall i :: 0 <= i < |grades| ==> grades[i] in selections
    requires forall i, j :: 0 <= i < j < |grades| ==> grades[i] > grades[j]
    ensures GradesDescend(Order(selections, grades))
    ensures grades != [] ==> GradesAtMost(Order(selections, grades), grades[0])
    decreases |grades|
  {
    if grades != [] {
      var g := grades[0];
      var rest := grades[1..];
      OrderDescends(selections, rest);
      var a, b := selections[g], Order(selections, rest);
      assert Order(selections, grades) == a + b;
      if rest != [] {
        assert rest[0] == grades[1] < g;
        assert GradesAtMost(b, rest[0]);
      }
      assert forall i :: 0 <= i < |b| ==> b[i].grade < g;
      assert forall i :: 0 <= i < |a| ==> a[i].grade == g;
      var o := a + b;
      forall i, j | 0 <= i < j < |o| ensures o[i].grade >= o[j].grade {
        if j < |a| {
          assert o[i] == a[i] && o[j] == a[j];
        } else if i < |a| {
          assert o[i] == a[i] && o[j] == b[j - |a|];
        } else {
          assert o[i] == b[i - |a|] && o[j] == b[j - |a|];
        }
      }
      assert GradesAtMost(o, g) by {
        forall i | 0 <= i < |o| ensures o[i].grade <= g {
          if i < |a| { assert o[i] == a[i]; } else { assert o[i] == b[i - |a|]; }
        }
      }
    }
  }

  // ---------------------------------------------------------------------
  // One run, on values

  /** Choice `n` is the name of a session with a seat left. */
  predicate HasRoom(views: seq<SessionState>, names: seq<string>, n: string)
    requires |views| == |names|
  {
    var j := Lookup(names, n);
    j.Some? && views[j.value].left > 0
  }

  /** The first of the student's choices from position p on that names a
      session with a seat left, with that session's position; None when
      none does. */
  function FirstFit(views: seq<SessionState>, names: seq<string>, s: Student, p: nat): (r: Option<(nat, nat)>)
    requires |views| == |names|
    ensures r.Some? ==> p <= r.value.0 < |s.choices| && Lookup(names, s.choices[r.value.0]) == Some(r.value.1)
                        && views[r.value.1].left > 0
    ensures forall q :: p <= q < |s.choices| && (r.None? || q < r.value.0) ==> !HasRoom(views, names, s.choices[q])
    decreases |s.choices| - p
  {
    if p >= |s.choices| then None
    else if HasRoom(views, names, s.choices[p]) then Some((p, Lookup(names, s.choices[p]).value))
    else FirstFit(views, names, s, p + 1)
  }

  /** One student's turn: registered into the first fitting session with
      the rank that session has among its choices, or left unplaced. */
  function Place(views: seq<SessionState>, names: seq<string>, s: Student): (r: (seq<SessionState>, bool))
    requires |views| == |names|
    ensures |r.0| == |views|
  {
    var f := FirstFit(views, names, s, 0);
    if f.None? then (views, false)
    else (views[f.value.1 := Added(views[f.value.1], s, f.value.0)], true)
  }

  /** The students handled in `order`: the sessions' states at the end, and
      the students placed nowhere, in order. */
  function Run(views: seq<SessionState>, names: seq<string>, order: seq<Student>): (r: (seq<SessionState>, seq<Student>))
    requires |views| == |names|
    ensures |r.0| == |views|
    decreases |order|
  {
    if order == [] then (views, [])
    else
      var p := Place(views, names, order[0]);
      var r := Run(p.0, names, order[1..]);
      (r.0, if p.1 then r.1 else [order[0]] + r.1)
  }

  function Ids(students: seq<Student>): (r: seq<string>)
    ensures |r| == |students| && forall i :: 0 <= i < |students| ==> r[i] == students[i].id
  {
    seq(|students|, i requires 0 <= i < |students| => students[i].id)
  }

  lemma IdsAppend(a: seq<Student>, b: seq<Student>)
    ensures Ids(a + b) == Ids(a) + Ids(b)
  {
    assert forall i :: 0 <= i < |a + b| ==> Ids(a + b)[i] == (Ids(a) + Ids(b))[i];
  }

  // ---------------------------------------------------------------------
  // What a run keeps

  /** A student is left unplaced exactly when none of its choices names a
      session with a seat left, and then nothing changes. */
  lemma PlaceFails(views: seq<SessionState>, names: seq<string>, s: Student)
    requires |views| == |names|
    ensures var r := Place(views, names, s);
            (!r.1 <==> forall q :: 0 <= q < |s.choices| ==> !HasRoom(views, names, s.choices[q]))
            && (!r.1 ==> r.0 == views)
  {
    var f := FirstFit(views, names, s, 0);
    if f.Some? {
      assert HasRoom(views, names, s.choices[f.value.0]);
    }
  }

  /** A student who is placed changes exactly one session, one with a seat
      left, by appending the student to it. */
  lemma PlaceSucceeds(views: seq<SessionState>, names: seq<string>, s: Student)
    requires |views| == |names|
    ensures var r := Place(views, names, s);
            r.1 ==> exists j :: 0 <= j < |views| && views[j].left > 0
                                && r.0 == views[j := Added(views[j], s, r.0[j].score - views[j].score - 1)]
  {
    var f := FirstFit(views, names, s, 0);
    var r := Place(views, names, s);
    if f.Some? {
      var p, j := f.value.0, f.value.1;
      assert r.0 == views[j := Added(views[j], s, p)];
      assert r.0[j].score - views[j].score - 1 == p;
    }
  }

  /** Seats taken plus seats left stay the same in every session, a session
      with no seat left is never touched, and a session never ends with fewer
      than zero seats left when it started with at least zero. Rosters only
      grow at their ends. */
  lemma {:induction false} RunKeepsSeats(views: seq<SessionState>, names: seq<string>, order: seq<Student>)
    requires |views| == |names|
    ensures var w := Run(views, names, order).0;
            forall j :: 0 <= j < |views| ==>
              |w[j].roster| + w[j].left == |views[j].roster| + views[j].left
              && (views[j].left <= 0 ==> w[j] == views[j])
              && (views[j].left >= 0 ==> w[j].left >= 0)
              && views[j].roster <= w[j].roster
    decreases |order|
  {
    if order != [] {
      var v := Place(views, names, order[0]).0;
      RunKeepsSeats(v, names, order[1..]);
      forall j | 0 <= j < |views|
        ensures |v[j].roster| + v[j].left == |views[j].roster| + views[j].left
        ensures views[j].left <= 0 ==> v[j] == views[j]
        ensures views[j].left >= 0 ==> v[j].left >= 0
        ensures views[j].roster <= v[j].roster
      {
      }
    }
  }

  /** Everybody seated in some session, as a multiset. */
  function Held(views: seq<SessionState>): multiset<Student> {
    if views == [] then multiset{} else Held(views[..|views| - 1]) + multiset(views[|views| - 1].roster)
  }

  /** Appending a student to one roster adds exactly that student to the
      seated. */
  lemma {:induction false} HeldAdded(views: seq<SessionState>, j: nat, s: Student, p: int)
    requires j < |views|
    ensures Held(views[j := Added(views[j], s, p)]) == Held(views) + multiset{s}
    decreases |views|
  {
    var n := |views| - 1;
    var w := views[j := Added(views[j], s, p)];
    if j == n {
      assert w[..n] == views[..n];
    } else {
      assert w[..n] == views[..n][j := Added(views[..n][j], s, p)];
      HeldAdded(views[..n], j, s, p);
    }
  }

  /** Each student of the run ends up in exactly one place: seated in one
      session, or among the unplaced. */
  lemma {:induction false} RunPlacesEveryoneOnce(views: seq<SessionState>, names: seq<string>, order: seq<Student>)
    requires |views| == |names|
    ensures var r := Run(views, names, order);
            Held(r.0) + multiset(r.1) == Held(views) + multiset(order)
    decreases |order|
  {
    if order != [] {
      var x := order[0];
      var p := Place(views, names, x);
      var r := Run(p.0, names, order[1..]);
      RunPlacesEveryoneOnce(p.0, names, order[1..]);
      assert multiset(order) == multiset{x} + multiset(order[1..]) by {
        assert order == [x] + order[1..];
      }
      if p.1 {
        var f := FirstFit(views, names, x, 0).value;
        HeldAdded(views, f.1, x, f.0);
      } else {
        assert multiset([x] + r.1) == multiset{x} + multiset(r.1);
      }
    }
  }

  /** The number of students seated in some session. */
  function Seated(views: seq<SessionState>): nat {
    if views == [] then 0 else Seated(views[..|views| - 1]) + |views[|views| - 1].roster|
  }

  lemma {:induction false} HeldSize(views: seq<SessionState>)
    ensures |Held(views)| == Seated(views)
    decreases |views|
  {
    if views != [] {
      HeldSize(views[..|views| - 1]);
    }
  }

  /** The unplaced ids and the students a run seats add up to the number of
      students handled. */
  lemma RunCounts(views: seq<SessionState>, names: seq<string>, order: seq<Student>)
    requires |views| == |names|
    ensures var r := Run(views, names, order);
            |Ids(r.1)| + Seated(r.0) == |order| + Seated(views)
  {
    var r := Run(views, names, order);
    var w, unplaced := r.0, r.1;
    RunPlacesEveryoneOnce(views, names, order);
    HeldSize(w);
    HeldSize(views);
    assert |Held(w) + multiset(unplaced)| == |Held(views) + multiset(order)|;
  }

  // ---------------------------------------------------------------------
  // The engine on session objects

  function Names(sessions: seq<Session>): (r: seq<string>)
    ensures |r| == |sessions| && forall j :: 0 <= j < |sessions| ==> r[j] == sessions[j].name
  {
    seq(|sessions|, j requires 0 <= j < |sessions| => sessions[j].name)
  }

  function States(sessions: seq<Session>): (r: seq<SessionState>)
    reads sessions
    ensures |r| == |sessions| && forall j :: 0 <= j < |sessions| ==> r[j] == sessions[j].State()
  {
    seq(|sessions|, j requires 0 <= j < |sessions| reads sessions => sessions[j].State())
  }

  /** The sessions dictionary: valid sessions under distinct names (and so
      distinct objects). */
  ghost predicate Dict(sessions: seq<Session>)
    reads sessions
  {
    (forall i, j :: 0 <= i < j < |sessions| ==> sessions[i].name != sessions[j].name)
    && (forall j :: 0 <= j < |sessions| ==> sessions[j].Valid())
  }

  /** `sessions[name].register(student, preference)` for the session at
      position j: only that session changes, as `add_student` says. */
  method Register(sessions: seq<Session>, j: nat, student: Student, preference: nat) returns (ok: bool)
    requires Dict(sessions) && j < |sessions|
    modifies sessions[j]
    ensures Dict(sessions)
    ensures ok == (old(sessions[j].left) > 0)
    ensures States(sessions) == if ok then old(States(sessions))[j := Added(old(sessions[j].State()), student, preference)]
                                else old(States(sessions))
  {
    ghost var vs := States(sessions);
    ok := sessions[j].AddStudent(student, preference);
    forall i | 0 <= i < |sessions| && i != j ensures sessions[i].State() == vs[i] {
      assert sessions[i].name != sessions[j].name;
    }
    if ok {
      assert States(sessions) == vs[j := sessions[j].State()];
    } else {
      assert States(sessions) == vs;
    }
  }

  /** The `while preference < len(student.choices) and not placed` loop:
      the choices are tried in order, a name that is no session is skipped,
      and the first session accepting the student keeps it. */
  method PlaceStudent(sessions: seq<Session>, student: Student) returns (placed: bool)
    requires Dict(sessions)
    modifies sessions
    ensures Dict(sessions)
    ensures States(sessions) == Place(old(States(sessions)), Names(sessions), student).0
    ensures placed == Place(old(States(sessions)), Names(sessions), student).1
  {
    ghost var vs := States(sessions);
    ghost var names := Names(sessions);
    var preference := 0;
    placed := false;
    while preference < |student.choices| && !placed
      invariant Dict(sessions)
      invariant 0 <= preference <= |student.choices|
      invariant !placed ==> States(sessions) == vs && FirstFit(vs, names, student, 0) == FirstFit(vs, names, student, preference)
      invariant placed ==> States(sessions) == Place(vs, names, student).0 && Place(vs, names, student).1
    {
      var found := Lookup(Names(sessions), GetChoice(student, preference));
      if found.Some? {
        var j := found.value;
        placed := Register(sessions, j, student, preference);
      }
      preference := preference + 1;
    }
  }

  /** One grade's list of students, each placed by `PlaceStudent` in list
      order; the ids of those placed nowhere are collected. */
  method MatchStudents(sessions: seq<Session>, students: seq<Student>) returns (unplaced: seq<string>, ghost un: seq<Student>)
    requires Dict(sessions)
    modifies sessions
    ensures Dict(sessions)
    ensures States(sessions) == Run(old(States(sessions)), Names(sessions), students).0
    ensures un == Run(old(States(sessions)), Names(sessions), students).1
    ensures unplaced == Ids(un)
  {
    ghost var names := Names(sessions);
    ghost var goal := Run(States(sessions), names, students);
    un := [];
    unplaced := [];
    assert students[0..] == students && un + goal.1 == goal.1;
    var i := 0;
    while i < |students|
      invariant 0 <= i <= |students| && Dict(sessions)
      invariant unplaced == Ids(un)
      invariant RunsOn(goal, States(sessions), names, students[i..], un)
    {
      var student := students[i];
      ghost var before := States(sessions);
      assert students[i..] == [student] + students[i + 1..];
      RunsOnStep(goal, before, names, student, students[i + 1..], un);
      var placed := PlaceStudent(sessions, student);
      if !placed {
        IdsAppend(un, [student]);
        unplaced := unplaced + [student.id];
        un := un + [student];
      }
      i := i + 1;
    }
    assert students[i..] == [] && un + [] == un;
  }

  /** `goal` is what handling `rest` from `views` finishes, once the
      students `un` already left unplaced are put before the rest. */
  ghost predicate RunsOn(goal: (seq<SessionState>, seq<Student>), views: seq<SessionState>, names: seq<string>,
                         rest: seq<Student>, un: seq<Student>)
  {
    |views| == |names| && goal.0 == Run(views, names, rest).0 && goal.1 == un + Run(views, names, rest).1
  }

  /** One student's turn keeps `RunsOn`. */
  lemma RunsOnStep(goal: (seq<SessionState>, seq<Student>), views: seq<SessionState>, names: seq<string>,
                   s: Student, rest: seq<Student>, un: seq<Student>)
    requires RunsOn(goal, views, names, [s] + rest, un)
    ensures var p := Place(views, names, s);
            RunsOn(goal, p.0, names, rest, if p.1 then un else un + [s])
  {
    var p := Place(views, names, s);
    var r := Run(p.0, names, rest);
    RunCons(views, names, s, rest);
    assert un + ([s] + r.1) == (un + [s]) + r.1;
  }

  /** The first student's turn, then the rest. */
  lemma RunCons(views: seq<SessionState>, names: seq<string>, s: Student, rest: seq<Student>)
    requires |views| == |names|
    ensures var p := Place(views, names, s);
            var r := Run(p.0, names, rest);
            Run(views, names, [s] + rest).0 == r.0
            && Run(views, names, [s] + rest).1 == if p.1 then r.1 else [s] + r.1
  {
    assert ([s] + rest)[0] == s && ([s] + rest)[1..] == rest;
  }

  /** Handling `a` and then `b` is handling `a + b`. */
  lemma {:induction false} RunAppend(views: seq<SessionState>, names: seq<string>, a: seq<Student>, b: seq<Student>)
    requires |views| == |names|
    ensures var r := Run(views, names, a);
            var t := Run(r.0, names, b);
            Run(views, names, a + b) == (t.0, r.1 + t.1)
    decreases |a|
  {
    if a == [] {
      assert a + b == b;
      assert Run(views, names, a).1 + Run(views, names, b).1 == Run(views, names, b).1;
    } else {
      var x := a[0];
      assert (a + b)[0] == x && (a + b)[1..] == a[1..] + b;
      var p := Place(views, names, x);
      RunAppend(p.0, names, a[1..], b);
      var r1 := Run(p.0, names, a[1..]);
      var t := Run(r1.0, names, b);
      assert Run(views, names, a) == (r1.0, if p.1 then r1.1 else [x] + r1.1);
      assert ([x] + r1.1) + t.1 == [x] + (r1.1 + t.1);
    }
  }

  /** The grades' lists one after the other, each by `MatchStudents`. */
  method MatchGrades(sessions: seq<Session>, selections: map<int, seq<Student>>, grades: seq<int>)
    returns (unplaced: seq<string>)
    requires Dict(sessions)
    requires forall i :: 0 <= i < |grades| ==> grades[i] in selections
    modifies sessions
    ensures Dict(sessions)
    ensures States(sessions) == Run(old(States(sessions)), Names(sessions), Order(selections, grades)).0
    ensures unplaced == Ids(Run(old(States(sessions)), Names(sessions), Order(selections, grades)).1)
  {
    ghost var names := Names(sessions);
    ghost var un: seq<Student> := [];
    unplaced := [];
    ghost var goal := Run(States(sessions), names, Order(selections, grades));
    assert grades[0..] == grades && un + goal.1 == goal.1;
    var k := 0;
    while k < |grades|
      invariant 0 <= k <= |grades| && Dict(sessions)
      invariant unplaced == Ids(un)
      invariant goal.0 == Run(States(sessions), names, Order(selections, grades[k..])).0
      invariant goal.1 == un + Run(States(sessions), names, Order(selections, grades[k..])).1
    {
      var students := selections[grades[k]];
      ghost var tail := Order(selections, grades[k + 1..]);
      assert grades[k..][0] == grades[k] && grades[k..][1..] == grades[k + 1..];
      assert Order(selections, grades[k..]) == students + tail;
      ghost var before := States(sessions);
      var more, un1 := MatchStudents(sessions, students);
      RunAppend(before, names, students, tail);
      ghost var r := Run(States(sessions), names, tail);
      assert un + (un1 + r.1) == (un + un1) + r.1;
      IdsAppend(un, un1);
      unplaced := unplaced + more;
      un := un + un1;
      k := k + 1;
    }
    assert un + [] == un;
  }

  /** `match`: the grades from the highest down, each grade's students in
      list order, each placed by `PlaceStudent`; the ids of those placed
      nowhere are returned in the order they were handled. */
  method Match(sessions: seq<Session>, selections: map<int, seq<Student>>) returns (unplaced: seq<string>)
    requires Dict(sessions)
    modifies sessions
    ensures Dict(sessions)
    ensures var r := Run(old(States(sessions)), Names(sessions), Order(selections, Descending(selections.Keys)));
            States(sessions) == r.0 && unplaced == Ids(r.1)
  {
    var grades := Descending(selections.Keys);
    unplaced := MatchGrades(sessions, selections, grades);
  }

  // ---------------------------------------------------------------------
  // Repeated runs

  /** What one run of `match` does to sessions in the states `start`, with
      the students dictionary as that run's shuffle left it: the sessions'
      new states and the students placed nowhere. */
  function Outcome(start: seq<SessionState>, names: seq<string>, trial: map<int, seq<Student>>): (seq<SessionState>, seq<Student>)
    requires |start| == |names|
  {
    Run(start, names, Order(trial, Descending(trial.Keys)))
  }

  /** What each of a series of runs does, every one starting from `start`. */
  function Outcomes(start: seq<SessionState>, names: seq<string>, trials: seq<map<int, seq<Student>>>): (r: seq<(seq<SessionState>, seq<Student>)>)
    requires |start| == |names|
    ensures |r| == |trials|
  {
    if trials == [] then []
    else Outcomes(start, names, trials[..|trials| - 1]) + [Outcome(start, names, trials[|trials| - 1])]
  }

  /** Each run of a series is the run of its own trial: runs do not depend
      on one another. */
  lemma {:induction false} OutcomesAt(start: seq<SessionState>, names: seq<string>, trials: seq<map<int, seq<Student>>>, i: nat)
    requires |start| == |names| && i < |trials|
    ensures Outcomes(start, names, trials)[i] == Outcome(start, names, trials[i])
    decreases |trials|
  {
    if i < |trials| - 1 {
      var front := trials[..|trials| - 1];
      OutcomesAt(start, names, front, i);
    }
  }

  /** The number of students each run leaves unplaced. */
  function Counts(outs: seq<(seq<SessionState>, seq<Student>)>): (r: seq<nat>)
    ensures |r| == |outs| && forall i :: 0 <= i < |outs| ==> r[i] == |outs[i].1|
  {
    seq(|outs|, i requires 0 <= i < |outs| => |outs[i].1|)
  }

  /** `copy.deepcopy(sessions)`: new session objects, in the same states and
      under the same names. */
  method CopyAll(sessions: seq<Session>) returns (copies: seq<Session>)
    requires Dict(sessions)
    ensures Dict(copies)
    ensures forall j :: 0 <= j < |copies| ==> fresh(copies[j])
    ensures Names(copies) == Names(sessions) && States(copies) == States(sessions)
  {
    copies := [];
    var j := 0;
    while j < |sessions|
      invariant 0 <= j <= |sessions| && |copies| == j
      invariant forall i :: 0 <= i < j ==> fresh(copies[i])
      invariant forall i :: 0 <= i < j ==> copies[i].name == sessions[i].name && copies[i].State() == sessions[i].State()
      invariant Dict(copies)
    {
      var c := new Session.Copy(sessions[j]);
      copies := copies + [c];
      j := j + 1;
    }
  }

  /** One run of `match_n_times` on a deep copy of the sessions, which
      leaves every existing object as it was; `out` is what the run did. */
  method MatchCopy(sessions: seq<Session>, trial: map<int, seq<Student>>)
    returns (copyClasses: seq<Session>, res: seq<string>, ghost out: (seq<SessionState>, seq<Student>))
    requires Dict(sessions)
    ensures out == Outcome(old(States(sessions)), Names(sessions), trial)
    ensures Kept(copyClasses, res, Names(sessions), out)
  {
    out := Outcome(States(sessions), Names(sessions), trial);
    copyClasses := CopyAll(sessions);
    res := Match(copyClasses, trial);
  }

  /** The sessions and unplaced ids kept are those of a run ending in `r`. */
  ghost predicate Kept(best: seq<Session>, bestUnplaced: seq<string>, names: seq<string>, r: (seq<SessionState>, seq<Student>))
    reads best
  {
    Dict(best) && Names(best) == names && States(best) == r.0 && bestUnplaced == Ids(r.1)
  }

  /** `match_n_times`: run `match` up to `iterations` times, the run
      numbered i on the students dictionary as `trials[i]` holds it after
      that run's shuffle. With exactly one iteration the sessions themselves
      are filled; otherwise every run fills a deep copy and the sessions are
      left as they were. A run is kept when it leaves strictly fewer students
      unplaced than the best so far, and the repetition stops at the first
      run leaving nobody unplaced. It returns the number of runs made, the
      sessions of the run kept and the ids that run left unplaced; with no
      iteration at all, nothing is kept. */
  method MatchNTimes(sessions: seq<Session>, trials: seq<map<int, seq<Student>>>, iterations: int)
    returns (runs: nat, best: seq<Session>, bestUnplaced: seq<string>)
    requires Dict(sessions)
    requires iterations <= |trials|
    modifies sessions
    ensures iterations <= 0 ==> runs == 0 && best == [] && bestUnplaced == []
    ensures iterations > 0 ==>
              var outs := Outcomes(old(States(sessions)), Names(sessions), trials[..iterations]);
              runs == Performed(Counts(outs))
              && Kept(best, bestUnplaced, Names(sessions), outs[FirstMin(Counts(outs)[..runs])])
    ensures iterations == 1 ==> best == sessions
    ensures iterations != 1 ==> States(sessions) == old(States(sessions))
    ensures Dict(sessions)
  {
    if iterations == 1 {
      // The single run fills the sessions themselves and is always kept.
      ghost var start := States(sessions);
      ghost var names := Names(sessions);
      bestUnplaced := Match(sessions, trials[0]);
      best := sessions;
      runs := 1;
      ghost var outs := Outcomes(start, names, trials[..1]);
      OutcomesAt(start, names, trials[..1], 0);
      assert trials[..1][0] == trials[0];
      assert Counts(outs)[..1] == [|outs[0].1|];
      PerformedIsUnique(Counts(outs), 1);
    } else {
      runs, best, bestUnplaced := MatchCopies(sessions, trials, iterations);
    }
  }

  /** The loop of `match_n_times` when every run fills a deep copy. */
  method MatchCopies(sessions: seq<Session>, trials: seq<map<int, seq<Student>>>, iterations: int)
    returns (runs: nat, best: seq<Session>, bestUnplaced: seq<string>)
    requires Dict(sessions)
    requires iterations <= |trials|
    ensures iterations <= 0 ==> runs == 0 && best == [] && bestUnplaced == []
    ensures iterations > 0 ==>
              var outs := Outcomes(States(sessions), Names(sessions), trials[..iterations]);
              runs == Performed(Counts(outs))
              && Kept(best, bestUnplaced, Names(sessions), outs[FirstMin(Counts(outs)[..runs])])
  {
    ghost var start := States(sessions);
    ghost var names := Names(sessions);
    ghost var outs := if iterations > 0 then Outcomes(start, names, trials[..iterations]) else [];
    best := [];
    bestUnplaced := [];
    var fewest: Option<nat> := None;
    var iteration := -1;
    ghost var kept: nat := 0;
    ghost var keptOut := ([], []);
    for i := 0 to if iterations > 0 then iterations else 0
      invariant iteration == i - 1
      invariant i > 0 ==> iterations > 0 && |outs| == iterations
      invariant States(sessions) == start
      invariant Progress(outs, i, kept, fewest, keptOut)
      invariant i == 0 ==> best == [] && bestUnplaced == []
      invariant i > 0 ==> Kept(best, bestUnplaced, names, keptOut)
    {
      iteration := i;
      OutcomesAt(start, names, trials[..iterations], i);
      assert trials[..iterations][i] == trials[i];
      var copyClasses, res, out := MatchCopy(sessions, trials[i]);
      assert States(sessions) == start;
      assert out == outs[i] && |res| == |out.1|;
      assert i > 0 ==> Kept(best, bestUnplaced, names, keptOut);
      ProgressStep(outs, i, kept, fewest, keptOut);
      if fewest == None || |res| < fewest.value {
        kept := i;
        keptOut := out;
        fewest := Some(|res|);
        bestUnplaced := res;
        best := copyClasses;
        if |res| == 0 {
          runs := iteration + 1;
          return;
        }
      }
    }
    runs := iteration + 1;
    if iterations > 0 {
      ProgressEnd(outs, kept, fewest, keptOut);
    }
  }

  /** What `match_n_times` reports about the runs `outs`: it made `runs` of
      them, and the best one, `keptOut`, is the first of the runs made that
      leaves the fewest students unplaced. */
  ghost predicate Chosen(outs: seq<(seq<SessionState>, seq<Student>)>, runs: nat, keptOut: (seq<SessionState>, seq<Student>)) {
    outs != [] && runs == Performed(Counts(outs)) && keptOut == outs[FirstMin(Counts(outs)[..runs])]
  }

  /** The loop of `match_n_times` after i of the runs `outs`: the counts
      agree with `Tally`, and `keptOut` is the run kept. */
  ghost predicate Progress(outs: seq<(seq<SessionState>, seq<Student>)>, i: nat, kept: nat, fewest: Option<nat>,
                           keptOut: (seq<SessionState>, seq<Student>)) {
    Tally(Counts(outs), i, kept, fewest) && (i > 0 ==> kept < |outs| && keptOut == outs[kept])
  }

  /** One more run keeps `Progress`, or finishes with `Chosen` when it is
      kept and leaves nobody unplaced. */
  lemma ProgressStep(outs: seq<(seq<SessionState>, seq<Student>)>, i: nat, kept: nat, fewest: Option<nat>,
                     keptOut: (seq<SessionState>, seq<Student>))
    requires i < |outs| && Progress(outs, i, kept, fewest, keptOut)
    ensures var c := |outs[i].1|;
            var take := fewest.None? || c < fewest.value;
            (take && c == 0 ==> Chosen(outs, i + 1, outs[i]))
            && (take && c > 0 ==> Progress(outs, i + 1, i, Some(c), outs[i]))
            && (!take ==> Progress(outs, i + 1, kept, fewest, keptOut))
  {
    TallyStep(Counts(outs), i, kept, fewest);
  }

  /** Every run made without one leaving nobody unplaced. */
  lemma ProgressEnd(outs: seq<(seq<SessionState>, seq<Student>)>, kept: nat, fewest: Option<nat>,
                    keptOut: (seq<SessionState>, seq<Student>))
    requires outs != [] && Progress(outs, |outs|, kept, fewest, keptOut)
    ensures Chosen(outs, |outs|, keptOut)
  {
    TallyEnd(Counts(outs), kept, fewest);
    assert Counts(outs)[..|outs|] == Counts(outs);
  }

  /** The bookkeeping of `match_n_times` after i runs with unplaced counts
      `counts`: none of them left nobody unplaced, and `fewest` is the
      count of the run kept, the first of the least ones. */
  ghost predicate Tally(counts: seq<nat>, i: nat, kept: nat, fewest: Option<nat>) {
    i <= |counts|
    && (forall j :: 0 <= j < i ==> counts[j] > 0)
    && (i == 0 ==> fewest == None)
    && (i > 0 ==> kept == FirstMin(counts[..i]) && fewest == Some(counts[kept]))
  }

  /** One more run: it is kept when it leaves strictly fewer students
      unplaced, and the repetition stops there when it leaves nobody. */
  lemma TallyStep(counts: seq<nat>, i: nat, kept: nat, fewest: Option<nat>)
    requires i < |counts| && Tally(counts, i, kept, fewest)
    ensures var take := fewest.None? || counts[i] < fewest.value;
            (take && counts[i] == 0 ==> Performed(counts) == i + 1 && FirstMin(counts[..i + 1]) == i)
            && (take && counts[i] > 0 ==> Tally(counts, i + 1, i, Some(counts[i])))
            && (!take ==> Tally(counts, i + 1, kept, fewest))
  {
    KeepStep(counts, i);
    if fewest.None? || counts[i] < fewest.value {
      if counts[i] == 0 {
        PerformedIsUnique(counts, i + 1);
      }
    }
  }

  /** Every run made without one leaving nobody unplaced. */
  lemma TallyEnd(counts: seq<nat>, kept: nat, fewest: Option<nat>)
    requires counts != [] && Tally(counts, |counts|, kept, fewest)
    ensures Performed(counts) == |counts| && FirstMin(counts[..|counts|]) == kept
  {
    PerformedIsUnique(counts, |counts|);
  }

  /** One more run of `match_n_times`, on the counts of unplaced students:
      the run kept so far stays kept unless the new one leaves strictly
      fewer students unplaced. */
  lemma KeepStep(counts: seq<nat>, i: nat)
    requires i < |counts|
    ensures i == 0 ==> FirstMin(counts[..i + 1]) == 0
    ensures i > 0 ==> FirstMin(counts[..i + 1]) == if counts[i] < counts[FirstMin(counts[..i])] then i else FirstMin(counts[..i])
  {
    assert counts[..i + 1] == counts[..i] + [counts[i]];
    if i > 0 {
      FirstMinStep(counts[..i], counts[i]);
    }
  }
}
