/** What `SmartMatch.prematch` (smartmatch.py) computes, stated on values:
    the tallies of choices per session, the list of students naming each
    session among their first `topN` choices, the sessions whose such demand
    fits their capacity, and where each pre-placed student goes. Students are
    identified by their position in the pool, which stands for the object
    identity the source's sets and lists rely on. */
module Presorting {
  import opened Optional
  import opened Students
  import opened SmartStudents
  import opened DeferredAcceptance
  import opened Keys

  /** How many of the positions below `upto` in `xs` hold `name`. */
  function Occurrences(xs: seq<string>, name: string, upto: int): (r: nat)
    ensures r <= |xs|
    ensures r > 0 <==> exists p :: 0 <= p < |xs| && p < upto && xs[p] == name
  {
    if xs == [] then 0
    else
      var n := |xs| - 1;
      var r := Occurrences(xs[..n], name, upto);
      assert forall p :: 0 <= p < n ==> xs[..n][p] == xs[p];
      r + if n < upto && xs[n] == name then 1 else 0
  }

  /** Counting one more position. */
  lemma OccurrencesStep(xs: seq<string>, p: nat, name: string, upto: int)
    requires p < |xs|
    ensures Occurrences(xs[..p + 1], name, upto)
            == Occurrences(xs[..p], name, upto) + if p < upto && xs[p] == name then 1 else 0
  {
    assert xs[..p + 1][..p] == xs[..p];
  }

  /** `session_tallies[name]`: how often `name` appears among all choices of
      all students of the pool. */
  function Demand(pool: seq<SmartStudent>, name: string): nat {
    if pool == [] then 0
    else
      var xs := pool[|pool| - 1].base.choices;
      Demand(pool[..|pool| - 1], name) + Occurrences(xs, name, |xs|)
  }

  function Repeat(i: nat, n: nat): (r: seq<nat>)
    ensures |r| == n && forall x :: x in r ==> x == i
  {
    if n == 0 then [] else Repeat(i, n - 1) + [i]
  }

  lemma RepeatMore(a: seq<nat>, i: nat, n: nat)
    ensures a + Repeat(i, n) + [i] == a + Repeat(i, n + 1)
  {
  }

  /** `top_n_tallies[name]`: pool position i once for every one of the first
      `topN` choices of student i that is `name`, in pool order. */
  function TopList(pool: seq<SmartStudent>, name: string, topN: int): seq<nat> {
    if pool == [] then []
    else
      var n := |pool| - 1;
      TopList(pool[..n], name, topN) + Repeat(n, Occurrences(pool[n].base.choices, name, topN))
  }

  /** The lists after looking at the first `pref` choices `xs` of the student
      at position i. */
  function ListsAt(lists: seq<seq<nat>>, names: seq<string>, xs: seq<string>, i: nat, pref: nat, topN: int): (r: seq<seq<nat>>)
    requires |lists| == |names| && pref <= |xs|
    ensures |r| == |names|
  {
    seq(|names|, j requires 0 <= j < |names| => lists[j] + Repeat(i, Occurrences(xs[..pref], names[j], topN)))
  }

  /** The tallies after looking at the first `pref` choices `xs`. */
  function TalliesAt(tallies: seq<int>, names: seq<string>, xs: seq<string>, pref: nat): (r: seq<int>)
    requires |tallies| == |names| && pref <= |xs|
    ensures |r| == |names|
  {
    seq(|names|, j requires 0 <= j < |names| => tallies[j] + Occurrences(xs[..pref], names[j], |xs|))
  }

  lemma ListsAtStart(lists: seq<seq<nat>>, names: seq<string>, xs: seq<string>, i: nat, topN: int)
    requires |lists| == |names|
    ensures ListsAt(lists, names, xs, i, 0, topN) == lists
  {
    assert xs[..0] == [];
    forall j | 0 <= j < |names| ensures ListsAt(lists, names, xs, i, 0, topN)[j] == lists[j] {
      assert Repeat(i, 0) == [];
    }
  }

  lemma TalliesAtStart(tallies: seq<int>, names: seq<string>, xs: seq<string>)
    requires |tallies| == |names|
    ensures TalliesAt(tallies, names, xs, 0) == tallies
  {
    assert xs[..0] == [];
  }

  /** One more choice: the list of the session it names (when it names one
      and lies among the first `topN`) gains the student. */
  lemma ListsAtStep(lists: seq<seq<nat>>, names: seq<string>, xs: seq<string>, i: nat, pref: nat, topN: int,
                    t: seq<seq<nat>>, v: nat)
    requires |lists| == |names| && pref < |xs|
    requires forall a, b :: 0 <= a < b < |names| ==> names[a] != names[b]
    requires t == ListsAt(lists, names, xs, i, pref, topN)
    requires v < |names| && names[v] == xs[pref] && pref < topN
    ensures ListsAt(lists, names, xs, i, pref + 1, topN) == t[v := t[v] + [i]]
  {
    var r' := ListsAt(lists, names, xs, i, pref + 1, topN);
    var e := t[v := t[v] + [i]];
    forall j | 0 <= j < |names| ensures r'[j] == e[j] {
      OccurrencesStep(xs, pref, names[j], topN);
      if j == v {
        RepeatMore(lists[j], i, Occurrences(xs[..pref], names[j], topN));
      }
    }
  }

  /** A choice that names no session, or lies past the first `topN`, leaves
      the lists as they are. */
  lemma ListsAtSame(lists: seq<seq<nat>>, names: seq<string>, xs: seq<string>, i: nat, pref: nat, topN: int)
    requires |lists| == |names| && pref < |xs|
    requires xs[pref] !in names || pref >= topN
    ensures ListsAt(lists, names, xs, i, pref + 1, topN) == ListsAt(lists, names, xs, i, pref, topN)
  {
    var r := ListsAt(lists, names, xs, i, pref, topN);
    var r' := ListsAt(lists, names, xs, i, pref + 1, topN);
    forall j | 0 <= j < |names| ensures r'[j] == r[j] {
      OccurrencesStep(xs, pref, names[j], topN);
    }
  }

  /** One more choice: the tally of the session it names goes up by one,
      and only that one. */
  lemma TalliesAtStep(tallies: seq<int>, names: seq<string>, xs: seq<string>, pref: nat, t: seq<int>, v: nat)
    requires |tallies| == |names| && pref < |xs| && t == TalliesAt(tallies, names, xs, pref)
    requires forall a, b :: 0 <= a < b < |names| ==> names[a] != names[b]
    requires v < |names| && names[v] == xs[pref]
    ensures TalliesAt(tallies, names, xs, pref + 1) == t[v := t[v] + 1]
  {
    var r' := TalliesAt(tallies, names, xs, pref + 1);
    forall j | 0 <= j < |names| ensures r'[j] == t[v := t[v] + 1][j] {
      OccurrencesStep(xs, pref, names[j], |xs|);
    }
  }

  /** A choice that names no session leaves the tallies as they are. */
  lemma TalliesAtSame(tallies: seq<int>, names: seq<string>, xs: seq<string>, pref: nat)
    requires |tallies| == |names| && pref < |xs| && xs[pref] !in names
    ensures TalliesAt(tallies, names, xs, pref + 1) == TalliesAt(tallies, names, xs, pref)
  {
    var r := TalliesAt(tallies, names, xs, pref);
    var r' := TalliesAt(tallies, names, xs, pref + 1);
    forall j | 0 <= j < |names| ensures r'[j] == r[j] {
      OccurrencesStep(xs, pref, names[j], |xs|);
    }
  }

  /** The lists and the tallies grow one student at a time. */
  lemma TallyStep(pool: seq<SmartStudent>, i: nat, name: string, topN: int)
    requires i < |pool|
    ensures TopList(pool[..i + 1], name, topN)
            == TopList(pool[..i], name, topN) + Repeat(i, Occurrences(pool[i].base.choices, name, topN))
    ensures Demand(pool[..i + 1], name)
            == Demand(pool[..i], name) + Occurrences(pool[i].base.choices, name, |pool[i].base.choices|)
  {
    assert pool[..i + 1][..i] == pool[..i];
  }

  /** The list holds exactly the students naming `name` among their first
      `topN` choices. */
  lemma {:induction false} TopListMembers(pool: seq<SmartStudent>, name: string, topN: int, x: int)
    ensures x in TopList(pool, name, topN) <==> 0 <= x < |pool| && Occurrences(pool[x].base.choices, name, topN) > 0
    decreases |pool|
  {
    if pool != [] {
      var n := |pool| - 1;
      TopListMembers(pool[..n], name, topN, x);
      var rep := Repeat(n, Occurrences(pool[n].base.choices, name, topN));
      assert x in rep <==> x == n && |rep| > 0 by {
        if x == n && |rep| > 0 {
          assert rep[0] in rep;
        }
      }
      if 0 <= x < n {
        assert pool[..n][x] == pool[x];
      }
    }
  }

  /** Session j is used for pre-placement: somebody names it among their
      first `topN` choices, and no more often than it has seats. */
  predicate Qualifies(pool: seq<SmartStudent>, names: seq<string>, spaces: seq<nat>, topN: int, j: nat)
    requires |names| == |spaces| && j < |names|
  {
    var t := |TopList(pool, names[j], topN)|;
    t > 0 && spaces[j] >= t
  }

  /** The names of the sessions among the first `upto` that qualify. */
  function PreNames(pool: seq<SmartStudent>, names: seq<string>, spaces: seq<nat>, topN: int, upto: nat): (r: set<string>)
    requires |names| == |spaces| && upto <= |names|
    ensures forall n :: n in r <==> exists j :: 0 <= j < upto && names[j] == n && Qualifies(pool, names, spaces, topN, j)
  {
    if upto == 0 then {}
    else
      var r := PreNames(pool, names, spaces, topN, upto - 1);
      if Qualifies(pool, names, spaces, topN, upto - 1) then r + {names[upto - 1]} else r
  }

  lemma PreNamesStep(pool: seq<SmartStudent>, names: seq<string>, spaces: seq<nat>, topN: int, j: nat)
    requires |names| == |spaces| && j < |names|
    ensures PreNames(pool, names, spaces, topN, j + 1)
            == if Qualifies(pool, names, spaces, topN, j) then PreNames(pool, names, spaces, topN, j) + {names[j]}
               else PreNames(pool, names, spaces, topN, j)
  {
  }

  /** Student x is in one of the lists of the first `upto` sessions that
      qualify: it is in `pre_placement_students`. */
  predicate Claimed(pool: seq<SmartStudent>, names: seq<string>, spaces: seq<nat>, topN: int, upto: nat, x: nat)
    requires |names| == |spaces| && upto <= |names|
  {
    exists j :: 0 <= j < upto && Qualifies(pool, names, spaces, topN, j) && x in TopList(pool, names[j], topN)
  }

  /** The first position from `p` on, below `topN`, whose choice (the empty
      string past the end of the list) is the name of a session in `pre`, or
      -1 when there is none. */
  function FirstPre(s: Student, pre: set<string>, topN: int, p: nat): (r: int)
    ensures r == -1 || (p <= r < topN && GetChoice(s, r) in pre)
    ensures forall q :: p <= q < topN && (r == -1 || q < r) ==> GetChoice(s, q) !in pre
    decreases topN - p
  {
    if p >= topN then -1
    else if GetChoice(s, p) in pre then p
    else FirstPre(s, pre, topN, p + 1)
  }

  /** The session a claimed student is registered into: the first of its
      first `topN` choices that names a session used for pre-placement. */
  function Dest(s: Student, names: seq<string>, pre: set<string>, topN: int): Option<nat> {
    var p := FirstPre(s, pre, topN, 0);
    if p < 0 then None else Lookup(names, GetChoice(s, p))
  }

  /** A claimed student has a destination, and it is a session that
      qualifies, named by one of the student's own first `topN` choices
      (never the empty string past the end of its list). */
  lemma ClaimedHasDest(pool: seq<SmartStudent>, names: seq<string>, spaces: seq<nat>, topN: int, x: nat)
    requires |names| == |spaces| && Claimed(pool, names, spaces, topN, |names|, x)
    requires forall a, b :: 0 <= a < b < |names| ==> names[a] != names[b]
    ensures x < |pool|
    ensures var pre := PreNames(pool, names, spaces, topN, |names|);
            var d := Dest(pool[x].base, names, pre, topN);
            var p := FirstPre(pool[x].base, pre, topN, 0);
            0 <= p < topN && p < |pool[x].base.choices|
            && d.Some? && d.value < |names| && names[d.value] == pool[x].base.choices[p]
            && Qualifies(pool, names, spaces, topN, d.value)
            && Occurrences(pool[x].base.choices, names[d.value], topN) > 0
  {
    var pre := PreNames(pool, names, spaces, topN, |names|);
    var j :| 0 <= j < |names| && Qualifies(pool, names, spaces, topN, j) && x in TopList(pool, names[j], topN);
    TopListMembers(pool, names[j], topN, x);
    var s := pool[x].base;
    var q :| 0 <= q < |s.choices| && q < topN && s.choices[q] == names[j];
    var p := FirstPreIsEarly(s, pre, topN, q);
    var i := NamedIn(pool, names, spaces, topN, s.choices[p]);
    assert Lookup(names, names[i]) == Some(i);
  }

  lemma FirstPreIsEarly(s: Student, pre: set<string>, topN: int, q: nat) returns (p: nat)
    requires q < |s.choices| && q < topN && s.choices[q] in pre
    ensures p == FirstPre(s, pre, topN, 0) && p <= q && s.choices[p] in pre
  {
    assert GetChoice(s, q) in pre;
    p := FirstPre(s, pre, topN, 0);
  }

  lemma NamedIn(pool: seq<SmartStudent>, names: seq<string>, spaces: seq<nat>, topN: int, n: string) returns (i: nat)
    requires |names| == |spaces| && n in PreNames(pool, names, spaces, topN, |names|)
    ensures i < |names| && names[i] == n && Qualifies(pool, names, spaces, topN, i)
  {
    i :| 0 <= i < |names| && names[i] == n && Qualifies(pool, names, spaces, topN, i);
  }

  /** How many of the students at the positions in `placed` have session j as
      their destination. */
  function CountTo(pool: seq<SmartStudent>, placed: set<nat>, names: seq<string>, pre: set<string>, topN: int, j: nat): nat {
    if pool == [] then 0
    else
      var n := |pool| - 1;
      CountTo(pool[..n], placed, names, pre, topN, j)
      + if n in placed && Dest(pool[n].base, names, pre, topN) == Some(j) then 1 else 0
  }

  lemma {:induction false} CountToAdd(pool: seq<SmartStudent>, placed: set<nat>, names: seq<string>, pre: set<string>, topN: int, j: nat, i: nat)
    requires i < |pool| && i !in placed
    ensures CountTo(pool, placed + {i}, names, pre, topN, j)
            == CountTo(pool, placed, names, pre, topN, j) + if Dest(pool[i].base, names, pre, topN) == Some(j) then 1 else 0
    decreases |pool|
  {
    var n := |pool| - 1;
    if i < n {
      assert pool[..n][i] == pool[i];
      CountToAdd(pool[..n], placed, names, pre, topN, j, i);
    } else {
      CountToSame(pool[..n], placed, placed + {i}, names, pre, topN, j);
    }
  }

  /** Positions at or past the end of the pool do not count. */
  lemma {:induction false} CountToSame(pool: seq<SmartStudent>, a: set<nat>, b: set<nat>, names: seq<string>, pre: set<string>, topN: int, j: nat)
    requires forall x :: 0 <= x < |pool| ==> (x in a <==> x in b)
    ensures CountTo(pool, a, names, pre, topN, j) == CountTo(pool, b, names, pre, topN, j)
    decreases |pool|
  {
    if pool != [] {
      CountToSame(pool[..|pool| - 1], a, b, names, pre, topN, j);
    }
  }

  lemma {:induction false} CountToMono(pool: seq<SmartStudent>, a: set<nat>, b: set<nat>, names: seq<string>, pre: set<string>, topN: int, j: nat)
    requires a <= b
    ensures CountTo(pool, a, names, pre, topN, j) <= CountTo(pool, b, names, pre, topN, j)
    decreases |pool|
  {
    if pool != [] {
      CountToMono(pool[..|pool| - 1], a, b, names, pre, topN, j);
    }
  }

  /** A student counted for session j names it among its first `topN`
      choices, so it takes at least one place in session j's list. */
  lemma {:induction false} CountToBound(pool: seq<SmartStudent>, placed: set<nat>, names: seq<string>, pre: set<string>, topN: int, j: nat)
    requires j < |names|
    requires forall x :: 0 <= x < |pool| && x in placed && Dest(pool[x].base, names, pre, topN) == Some(j)
                         ==> Occurrences(pool[x].base.choices, names[j], topN) > 0
    ensures CountTo(pool, placed, names, pre, topN, j) <= |TopList(pool, names[j], topN)|
    decreases |pool|
  {
    if pool != [] {
      var n := |pool| - 1;
      forall x | 0 <= x < n && x in placed && Dest(pool[..n][x].base, names, pre, topN) == Some(j)
        ensures Occurrences(pool[..n][x].base.choices, names[j], topN) > 0
      {
        assert pool[..n][x] == pool[x];
      }
      CountToBound(pool[..n], placed, names, pre, topN, j);
    }
  }

  /** `self.students` after `remove` of every student at a position in
      `gone`. */
  function Remaining(pool: seq<SmartStudent>, gone: set<nat>): (r: seq<SmartStudent>)
    ensures |r| <= |pool|
  {
    if pool == [] then []
    else
      var n := |pool| - 1;
      Remaining(pool[..n], gone) + if n in gone then [] else [pool[n]]
  }

  /** Removing one more student takes exactly that student out. */
  lemma {:induction false} RemainingAdd(pool: seq<SmartStudent>, gone: set<nat>, i: nat)
    requires i < |pool| && i !in gone
    ensures Bases(Remaining(pool, gone)) == Bases(Remaining(pool, gone + {i})) + multiset{pool[i].base}
    decreases |pool|, 1
  {
    if i < |pool| - 1 {
      RemainingAddEarlier(pool, gone, i);
    } else {
      RemainingAddLast(pool, gone);
    }
  }

  lemma {:induction false} RemainingAddEarlier(pool: seq<SmartStudent>, gone: set<nat>, i: nat)
    requires i < |pool| - 1 && i !in gone
    ensures Bases(Remaining(pool, gone)) == Bases(Remaining(pool, gone + {i})) + multiset{pool[i].base}
    decreases |pool|, 0
  {
    var n := |pool| - 1;
    var p := pool[..n];
    assert p[i] == pool[i];
    RemainingAdd(p, gone, i);
    var tail: seq<SmartStudent> := if n in gone then [] else [pool[n]];
    assert (n in gone + {i}) == (n in gone);
    RemainingUnfold(pool, gone);
    RemainingUnfold(pool, gone + {i});
    ShiftTail(Remaining(pool, gone), Remaining(pool, gone + {i}), Remaining(p, gone), Remaining(p, gone + {i}), tail, pool[i].base);
  }

  /** Appending the same students to both sides keeps one student's
      difference. */
  lemma ShiftTail(r: seq<SmartStudent>, r': seq<SmartStudent>, a: seq<SmartStudent>, b: seq<SmartStudent>, tail: seq<SmartStudent>, s: Student)
    requires r == a + tail && r' == b + tail
    requires Bases(a) == Bases(b) + multiset{s}
    ensures Bases(r) == Bases(r') + multiset{s}
  {
    BasesAppend(a, tail);
    BasesAppend(b, tail);
    Shift(Bases(a), Bases(b), Bases(tail), s);
  }

  lemma RemainingUnfold(pool: seq<SmartStudent>, gone: set<nat>)
    requires pool != []
    ensures Remaining(pool, gone)
            == Remaining(pool[..|pool| - 1], gone) + if |pool| - 1 in gone then [] else [pool[|pool| - 1]]
  {
  }

  lemma RemainingAddLast(pool: seq<SmartStudent>, gone: set<nat>)
    requires pool != [] && |pool| - 1 !in gone
    ensures Bases(Remaining(pool, gone)) == Bases(Remaining(pool, gone + {|pool| - 1})) + multiset{pool[|pool| - 1].base}
  {
    var n := |pool| - 1;
    var p := pool[..n];
    RemainingSame(p, gone, gone + {n});
    var r := Remaining(p, gone);
    assert Remaining(pool, gone) == r + [pool[n]];
    assert Remaining(pool, gone + {n}) == r by {
      assert r + [] == r;
    }
    BasesAppend(r, [pool[n]]);
    Single(pool[n]);
  }

  lemma BasesAppend(a: seq<SmartStudent>, b: seq<SmartStudent>)
    ensures Bases(a + b) == Bases(a) + Bases(b)
  {
    SumsAppend(a, b, 0);
  }

  lemma Shift(x: multiset<Student>, y: multiset<Student>, t: multiset<Student>, b: Student)
    requires x == y + multiset{b}
    ensures x + t == (y + t) + multiset{b}
  {
    forall z ensures (x + t)[z] == ((y + t) + multiset{b})[z] {
      assert x[z] == (y + multiset{b})[z];
    }
  }

  lemma {:induction false} RemainingSame(pool: seq<SmartStudent>, a: set<nat>, b: set<nat>)
    requires forall x :: 0 <= x < |pool| ==> (x in a <==> x in b)
    ensures Remaining(pool, a) == Remaining(pool, b)
    decreases |pool|
  {
    if pool != [] {
      RemainingSame(pool[..|pool| - 1], a, b);
    }
  }

  /** Removing nobody keeps the pool. */
  lemma {:induction false} RemainingNone(pool: seq<SmartStudent>)
    ensures Remaining(pool, {}) == pool
    decreases |pool|
  {
    if pool != [] {
      RemainingNone(pool[..|pool| - 1]);
    }
  }

  /** `pre_placement_students` once the first `upto` sessions have been
      looked at. */
  function ClaimedUpTo(pool: seq<SmartStudent>, names: seq<string>, spaces: seq<nat>, topN: int, upto: nat): (r: set<nat>)
    requires |names| == |spaces| && upto <= |names|
    ensures forall x :: x in r <==> 0 <= x < |pool| && Claimed(pool, names, spaces, topN, upto, x)
  {
    set x | 0 <= x < |pool| && Claimed(pool, names, spaces, topN, upto, x)
  }

  /** `pre_placement_students` once every session has been looked at. */
  function Pending(pool: seq<SmartStudent>, names: seq<string>, spaces: seq<nat>, topN: int): (r: set<nat>)
    requires |names| == |spaces|
    ensures forall x :: x in r <==> 0 <= x < |pool| && Claimed(pool, names, spaces, topN, |names|, x)
  {
    ClaimedUpTo(pool, names, spaces, topN, |names|)
  }

  /** Looking at session j: when it qualifies, everybody on its list joins. */
  lemma ClaimedUpToStep(pool: seq<SmartStudent>, names: seq<string>, spaces: seq<nat>, topN: int, j: nat)
    requires |names| == |spaces| && j < |names|
    ensures var r := ClaimedUpTo(pool, names, spaces, topN, j);
            ClaimedUpTo(pool, names, spaces, topN, j + 1)
            == if Qualifies(pool, names, spaces, topN, j) then r + set x | x in TopList(pool, names[j], topN) else r
  {
    var r := ClaimedUpTo(pool, names, spaces, topN, j);
    var r' := ClaimedUpTo(pool, names, spaces, topN, j + 1);
    var e := if Qualifies(pool, names, spaces, topN, j) then r + set x | x in TopList(pool, names[j], topN) else r;
    forall x: nat ensures x in r' <==> x in e {
      ClaimedStep(pool, names, spaces, topN, j, x);
      TopListMembers(pool, names[j], topN, x);
    }
  }

  lemma ClaimedStep(pool: seq<SmartStudent>, names: seq<string>, spaces: seq<nat>, topN: int, j: nat, x: nat)
    requires |names| == |spaces| && j < |names|
    ensures Claimed(pool, names, spaces, topN, j + 1, x)
            <==> Claimed(pool, names, spaces, topN, j, x)
                 || (Qualifies(pool, names, spaces, topN, j) && x in TopList(pool, names[j], topN))
  {
    if Claimed(pool, names, spaces, topN, j + 1, x) && !Claimed(pool, names, spaces, topN, j, x) {
      var i :| 0 <= i < j + 1 && Qualifies(pool, names, spaces, topN, i) && x in TopList(pool, names[i], topN);
      assert i == j;
    }
  }

  /** Pre-placement never overfills a session that starts empty: before the
      student at position x is registered, fewer of the already placed
      students went to its destination than the destination has seats. */
  lemma RoomForClaimed(pool: seq<SmartStudent>, names: seq<string>, spaces: seq<nat>, topN: int, gone: set<nat>, x: nat)
    requires |names| == |spaces| && forall a, b :: 0 <= a < b < |names| ==> names[a] != names[b]
    requires gone <= Pending(pool, names, spaces, topN) && x in Pending(pool, names, spaces, topN) && x !in gone
    ensures var pre := PreNames(pool, names, spaces, topN, |names|);
            var d := Dest(pool[x].base, names, pre, topN);
            d.Some? && d.value < |names|
            && CountTo(pool, gone, names, pre, topN, d.value) + 1 == CountTo(pool, gone + {x}, names, pre, topN, d.value)
            && CountTo(pool, gone + {x}, names, pre, topN, d.value) <= spaces[d.value]
  {
    var pre := PreNames(pool, names, spaces, topN, |names|);
    var all := Pending(pool, names, spaces, topN);
    ClaimedHasDest(pool, names, spaces, topN, x);
    var d := Dest(pool[x].base, names, pre, topN).value;
    CountToAdd(pool, gone, names, pre, topN, d, x);
    CountToMono(pool, gone + {x}, all, names, pre, topN, d);
    forall y | 0 <= y < |pool| && y in all && Dest(pool[y].base, names, pre, topN) == Some(d)
      ensures Occurrences(pool[y].base.choices, names[d], topN) > 0
    {
      ClaimedHasDest(pool, names, spaces, topN, y);
    }
    CountToBound(pool, all, names, pre, topN, d);
  }

  /** Moving the student at position x from the pool into roster d (with a
      new stamp) keeps everybody. */
  lemma MoveIntoRoster(pool: seq<SmartStudent>, gone: set<nat>, x: nat, u: multiset<Student>,
                       rosters: seq<seq<SmartStudent>>, d: nat, s: SmartStudent)
    requires x < |pool| && x !in gone && d < |rosters| && s.base == pool[x].base
    ensures Bases(Remaining(pool, gone + {x})) + u + Held(rosters[d := rosters[d] + [s]])
            == Bases(Remaining(pool, gone)) + u + Held(rosters)
  {
    RemainingAdd(pool, gone, x);
    HeldAdd(rosters, d, s);
    Rebalance2(Bases(Remaining(pool, gone + {x})), Bases(Remaining(pool, gone)), u,
               Held(rosters[d := rosters[d] + [s]]), Held(rosters), s.base);
  }

  lemma HeldAdd(rosters: seq<seq<SmartStudent>>, d: nat, s: SmartStudent)
    requires d < |rosters|
    ensures Held(rosters[d := rosters[d] + [s]]) == Held(rosters) + multiset{s.base}
  {
    HeldUpdate(rosters, d, rosters[d] + [s]);
    BasesAppend(rosters[d], [s]);
    Single(s);
    var b, b0, r := Held(rosters[d := rosters[d] + [s]]), Held(rosters), Bases(rosters[d]);
    forall z ensures b[z] == (b0 + multiset{s.base})[z] {
      assert (b + r)[z] == (b0 + (r + multiset{s.base}))[z];
    }
  }

  lemma Rebalance2(a: multiset<Student>, a0: multiset<Student>, u: multiset<Student>,
                   b: multiset<Student>, b0: multiset<Student>, x: Student)
    requires a0 == a + multiset{x} && b == b0 + multiset{x}
    ensures a + u + b == a0 + u + b0
  {
    forall z ensures (a + u + b)[z] == (a0 + u + b0)[z] {
      assert a0[z] == (a + multiset{x})[z];
      assert b[z] == (b0 + multiset{x})[z];
    }
  }

  /** The destination of every student of the pool, by position. */
  function Dests(pool: seq<SmartStudent>, names: seq<string>, pre: set<string>, topN: int): (r: seq<Option<nat>>)
    ensures |r| == |pool| && forall i :: 0 <= i < |pool| ==> r[i] == Dest(pool[i].base, names, pre, topN)
  {
    seq(|pool|, i requires 0 <= i < |pool| => Dest(pool[i].base, names, pre, topN))
  }

  /** The student at position i of `pool`, when it stands in `placed` and
      its destination in `dests` is session j. */
  function HeadedAt(pool: seq<SmartStudent>, dests: seq<Option<nat>>, placed: set<nat>, j: nat, i: nat): multiset<Student>
    requires i < |pool|
  {
    if i in placed && i < |dests| && dests[i] == Some(j) then multiset{pool[i].base} else multiset{}
  }

  /** The students at the positions in `placed` whose destination in
      `dests` is session j. */
  function HeadedTo(pool: seq<SmartStudent>, dests: seq<Option<nat>>, placed: set<nat>, j: nat): multiset<Student> {
    if pool == [] then multiset{}
    else
      var n := |pool| - 1;
      HeadedTo(pool[..n], dests, placed, j) + HeadedAt(pool, dests, placed, j, n)
  }

  /** A student is headed for session j exactly when it stands at a position
      in `placed` whose destination is session j. */
  lemma {:induction false} HeadedToMembers(pool: seq<SmartStudent>, dests: seq<Option<nat>>, placed: set<nat>, j: nat, s: Student)
    ensures s in HeadedTo(pool, dests, placed, j)
            <==> exists i :: 0 <= i < |pool| && i in placed && pool[i].base == s && i < |dests| && dests[i] == Some(j)
    decreases |pool|
  {
    if pool != [] {
      var n := |pool| - 1;
      var p := pool[..n];
      HeadedToMembers(p, dests, placed, j, s);
      var h := HeadedTo(p, dests, placed, j);
      var t := HeadedAt(pool, dests, placed, j, n);
      assert HeadedTo(pool, dests, placed, j) == h + t;
      assert s in h + t <==> s in h || s in t;
      assert forall i :: 0 <= i < n ==> p[i] == pool[i];
    }
  }

  /** There are as many students headed for session j as `CountTo` counts. */
  lemma {:induction false} HeadedToCount(pool: seq<SmartStudent>, dests: seq<Option<nat>>, placed: set<nat>,
                                         names: seq<string>, pre: set<string>, topN: int, j: nat)
    requires |pool| <= |dests| && forall i :: 0 <= i < |pool| ==> dests[i] == Dest(pool[i].base, names, pre, topN)
    ensures |HeadedTo(pool, dests, placed, j)| == CountTo(pool, placed, names, pre, topN, j)
    decreases |pool|
  {
    if pool != [] {
      var n := |pool| - 1;
      assert forall i :: 0 <= i < n ==> pool[..n][i] == pool[i];
      HeadedToCount(pool[..n], dests, placed, names, pre, topN, j);
    }
  }

  /** Positions at or past the end of the pool do not matter. */
  lemma {:induction false} HeadedToSame(pool: seq<SmartStudent>, dests: seq<Option<nat>>, a: set<nat>, b: set<nat>, j: nat)
    requires forall x :: 0 <= x < |pool| ==> (x in a <==> x in b)
    ensures HeadedTo(pool, dests, a, j) == HeadedTo(pool, dests, b, j)
    decreases |pool|
  {
    if pool != [] {
      HeadedToSame(pool[..|pool| - 1], dests, a, b, j);
    }
  }

  /** Placing the student at position i adds it to the students headed for
      its own destination, and to no other session's. */
  lemma {:induction false} HeadedToAdd(pool: seq<SmartStudent>, dests: seq<Option<nat>>, placed: set<nat>, j: nat, i: nat)
    requires i < |pool| && i !in placed
    ensures HeadedTo(pool, dests, placed + {i}, j) == HeadedTo(pool, dests, placed, j) + HeadedAt(pool, dests, placed + {i}, j, i)
    decreases |pool|, 1
  {
    if i < |pool| - 1 {
      HeadedToAddEarlier(pool, dests, placed, j, i);
    } else {
      HeadedToAddLast(pool, dests, placed, j);
    }
  }

  lemma {:induction false} HeadedToAddEarlier(pool: seq<SmartStudent>, dests: seq<Option<nat>>, placed: set<nat>, j: nat, i: nat)
    requires i < |pool| - 1 && i !in placed
    ensures HeadedTo(pool, dests, placed + {i}, j) == HeadedTo(pool, dests, placed, j) + HeadedAt(pool, dests, placed + {i}, j, i)
    decreases |pool|, 0
  {
    var n := |pool| - 1;
    var p := pool[..n];
    var e := HeadedAt(pool, dests, placed + {i}, j, i);
    var t := HeadedAt(pool, dests, placed, j, n);
    HeadedToUnfold(pool, dests, placed, j);
    HeadedToUnfold(pool, dests, placed + {i}, j);
    HeadedAtPrefix(pool, dests, placed + {i}, j, i, n);
    HeadedToAdd(p, dests, placed, j, i);
    assert HeadedAt(pool, dests, placed + {i}, j, n) == t;
    SwapAdd(HeadedTo(p, dests, placed, j), e, t);
  }

  lemma HeadedToUnfold(pool: seq<SmartStudent>, dests: seq<Option<nat>>, placed: set<nat>, j: nat)
    requires pool != []
    ensures HeadedTo(pool, dests, placed, j) == HeadedTo(pool[..|pool| - 1], dests, placed, j) + HeadedAt(pool, dests, placed, j, |pool| - 1)
  {
  }

  lemma HeadedAtPrefix(pool: seq<SmartStudent>, dests: seq<Option<nat>>, placed: set<nat>, j: nat, i: nat, n: nat)
    requires i < n <= |pool|
    ensures HeadedAt(pool[..n], dests, placed, j, i) == HeadedAt(pool, dests, placed, j, i)
  {
    assert pool[..n][i] == pool[i];
  }

  lemma HeadedToAddLast(pool: seq<SmartStudent>, dests: seq<Option<nat>>, placed: set<nat>, j: nat)
    requires pool != [] && |pool| - 1 !in placed
    ensures var n := |pool| - 1;
            HeadedTo(pool, dests, placed + {n}, j) == HeadedTo(pool, dests, placed, j) + HeadedAt(pool, dests, placed + {n}, j, n)
  {
    var n := |pool| - 1;
    HeadedToSame(pool[..n], dests, placed, placed + {n}, j);
    var h := HeadedTo(pool[..n], dests, placed, j);
    assert HeadedTo(pool, dests, placed, j) == h by {
      assert HeadedAt(pool, dests, placed, j, n) == multiset{};
    }
  }

  lemma SwapAdd(h: multiset<Student>, e: multiset<Student>, t: multiset<Student>)
    ensures (h + e) + t == (h + t) + e
  {
  }

  /** Nobody placed yet: nobody is headed anywhere. */
  lemma {:induction false} HeadedToNone(pool: seq<SmartStudent>, dests: seq<Option<nat>>, j: nat)
    ensures HeadedTo(pool, dests, {}, j) == multiset{}
    decreases |pool|
  {
    if pool != [] {
      HeadedToNone(pool[..|pool| - 1], dests, j);
    }
  }

  /** A roster holds as many students as it has entries. */
  lemma {:induction false} BasesSize(r: seq<SmartStudent>)
    ensures |Bases(r)| == |r|
    decreases |r|
  {
    if r != [] {
      BasesSize(r[..|r| - 1]);
    }
  }

  /** Pre-placement into sessions that started empty, one student at a time:
      the session the student at position x goes to still has room, and after
      it takes the student every roster holds exactly the placed students
      headed for it, and nobody is lost or duplicated. */
  lemma PlaceOne(pool: seq<SmartStudent>, names: seq<string>, spaces: seq<nat>, topN: int,
                 gone: set<nat>, x: nat, rs: seq<seq<SmartStudent>>, s: SmartStudent,
                 u: multiset<Student>, total: multiset<Student>)
    requires |names| == |spaces| && |rs| == |names|
    requires forall a, b :: 0 <= a < b < |names| ==> names[a] != names[b]
    requires gone <= Pending(pool, names, spaces, topN) && x in Pending(pool, names, spaces, topN) && x !in gone
    requires forall j :: 0 <= j < |rs| ==>
               Bases(rs[j]) == HeadedTo(pool, Dests(pool, names, PreNames(pool, names, spaces, topN, |names|), topN), gone, j)
    requires Bases(Remaining(pool, gone)) + u + Held(rs) == total
    requires s.base == pool[x].base
    ensures var d := Dest(pool[x].base, names, PreNames(pool, names, spaces, topN, |names|), topN);
            d.Some? && d.value < |rs| && |rs[d.value]| < spaces[d.value]
    ensures var pre := PreNames(pool, names, spaces, topN, |names|);
            var d := Dest(pool[x].base, names, pre, topN).value;
            var rs' := rs[d := rs[d] + [s]];
            (forall j :: 0 <= j < |rs'| ==> Bases(rs'[j]) == HeadedTo(pool, Dests(pool, names, pre, topN), gone + {x}, j))
            && Bases(Remaining(pool, gone + {x})) + u + Held(rs') == total
  {
    var pre := PreNames(pool, names, spaces, topN, |names|);
    RoomForClaimed(pool, names, spaces, topN, gone, x);
    var d := Dest(pool[x].base, names, pre, topN).value;
    var dests := Dests(pool, names, pre, topN);
    BasesSize(rs[d]);
    HeadedToCount(pool, dests, gone, names, pre, topN, d);
    AddToRoster(pool, dests, gone, x, rs, d, s);
    MoveIntoRoster(pool, gone, x, u, rs, d, s);
  }

  /** Roster d taking the student at position x, whose destination is d:
      every roster still holds exactly the placed students headed for it. */
  lemma {:induction false} AddToRoster(pool: seq<SmartStudent>, dests: seq<Option<nat>>, gone: set<nat>, x: nat,
                                       rs: seq<seq<SmartStudent>>, d: nat, s: SmartStudent)
    requires x < |pool| && x !in gone && x < |dests| && dests[x] == Some(d) && d < |rs| && s.base == pool[x].base
    requires forall j :: 0 <= j < |rs| ==> Bases(rs[j]) == HeadedTo(pool, dests, gone, j)
    ensures var rs' := rs[d := rs[d] + [s]];
            forall j :: 0 <= j < |rs'| ==> Bases(rs'[j]) == HeadedTo(pool, dests, gone + {x}, j)
  {
    var rs' := rs[d := rs[d] + [s]];
    BasesAppend(rs[d], [s]);
    Single(s);
    forall j | 0 <= j < |rs'| ensures Bases(rs'[j]) == HeadedTo(pool, dests, gone + {x}, j) {
      HeadedToAdd(pool, dests, gone, j, x);
    }
  }

  /** The rosters of `c` hold exactly the students at the positions in
      `gone` of `pool`, each in the session its choices lead it to, and
      together with the rest of the pool and the unassigned they make up
      `total`. */
  ghost predicate PlacedIn(c: Config, pool: seq<SmartStudent>, gone: set<nat>, names: seq<string>,
                           pre: set<string>, topN: int, total: multiset<Student>)
  {
    (forall j :: 0 <= j < |c.rosters| ==> Bases(c.rosters[j]) == HeadedTo(pool, Dests(pool, names, pre, topN), gone, j))
    && Bases(Remaining(pool, gone)) + Bases(c.unassigned) + Held(c.rosters) == total
  }

  /** Placing the pending student at position x into its destination d, in
      sessions that started empty: d has room, and the placement keeps
      `PlacedIn` with x added to `gone`. */
  lemma PlaceInto(c: Config, pool: seq<SmartStudent>, names: seq<string>, spaces: seq<nat>, topN: int,
                  gone: set<nat>, x: nat, d: nat, total: multiset<Student>)
    requires |names| == |spaces| && |c.rosters| == |names| && |c.counters| == |names|
    requires forall a, b :: 0 <= a < b < |names| ==> names[a] != names[b]
    requires gone <= Pending(pool, names, spaces, topN) && x in Pending(pool, names, spaces, topN) && x !in gone
    requires PlacedIn(c, pool, gone, names, PreNames(pool, names, spaces, topN, |names|), topN, total)
    requires Dest(pool[x].base, names, PreNames(pool, names, spaces, topN, |names|), topN) == Some(d)
    ensures d < |names| && |c.rosters[d]| < spaces[d]
    ensures PlacedIn(Admit(c, d, pool[x]), pool, gone + {x}, names, PreNames(pool, names, spaces, topN, |names|), topN, total)
  {
    PlaceOne(pool, names, spaces, topN, gone, x, c.rosters, pool[x].SetOrder(c.counters[d]), Bases(c.unassigned), total);
  }
}
