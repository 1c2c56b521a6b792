/** One step of the deferred-acceptance loop of `SmartMatch.match`
    (smartmatch.py), stated on values: the pool of students still to be
    placed, the unassigned students, and each session's roster and stamp
    counter. The engine in module SmartMatching is proved to take exactly
    these steps; the lemmas here say what every step keeps and what it
    uses up. */
module DeferredAcceptance {
  import opened Optional
  import opened Students
  import opened SmartStudents
  import opened SmartSessions
  import opened Keys

  /** The state of a run: `pool` is `self.students`, `unassigned` is
      `self.unassigned`, and `rosters[j]`/`counters[j]` are the roster and
      `order_counter` of session number j. */
  datatype Config = Config(pool: seq<SmartStudent>, unassigned: seq<SmartStudent>,
                           rosters: seq<seq<SmartStudent>>, counters: seq<int>)

  /** The sessions' names and capacities line up with the rosters, and every
      capacity is positive (the loader drops the others). */
  predicate Shaped(c: Config, names: seq<string>, spaces: seq<nat>) {
    |names| == |spaces| && |c.rosters| == |spaces| && |c.counters| == |spaces|
    && forall j :: 0 <= j < |spaces| ==> spaces[j] > 0
  }

  /** The run invariant on values: every roster within its capacity with
      distinct stamps above its counter, and only exhausted students among the
      unassigned. */
  predicate WellFormed(c: Config, names: seq<string>, spaces: seq<nat>) {
    Shaped(c, names, spaces)
    && (forall j :: 0 <= j < |spaces| ==> RosterOk(c.rosters[j], c.counters[j], spaces[j]))
    && (forall i :: 0 <= i < |c.unassigned| ==> c.unassigned[i].Exhausted())
  }

  /** The pool without the student at position k. */
  function Rest(pool: seq<SmartStudent>, k: nat): seq<SmartStudent>
    requires k < |pool|
  {
    pool[..k] + pool[k + 1..]
  }

  /** One pass of the `while self.students` loop, with the student at
      position k of the pool being the one `pop` hands out. */
  function Next(c: Config, names: seq<string>, spaces: seq<nat>, k: nat): Config
    requires WellFormed(c, names, spaces) && k < |c.pool|
  {
    var s := c.pool[k];
    var rest := Rest(c.pool, k);
    if s.Exhausted() then
      c.(pool := rest, unassigned := c.unassigned + [s])
    else
      match Lookup(names, GetChoice(s.base, s.currentChoice))
      case None =>
        c.(pool := rest + [s.IncrCurrentChoice()])
      case Some(j) =>
        var r, n := c.rosters[j], c.counters[j];
        if |r| < spaces[j] then
          c.(pool := rest, rosters := c.rosters[j := r + [s.SetOrder(n)]], counters := c.counters[j := n - 1])
        else
          var m := LeastIndex(r);
          var w := r[m].IncrCurrentChoice();
          if s.Grade() > w.Grade() then
            c.(pool := rest + [w.IncrCurrentChoice()],
               rosters := c.rosters[j := Without(r, m) + [s.SetOrder(n)]], counters := c.counters[j := n - 1])
          else
            c.(pool := rest + [s.IncrCurrentChoice()],
               rosters := c.rosters[j := Without(r, m) + [w.SetOrder(n)]], counters := c.counters[j := n - 1])
  }

  /** What a proposal of `s` does to a session with roster `r`, counter `n`
      and capacity `space`: with room, `s` is admitted with stamp n; when full,
      the least holder is popped (its cursor moved on) and the newcomer is
      admitted only with a strictly higher grade, the other one coming `back`
      with its cursor moved on. Either way the counter goes down by one. */
  predicate Proposed(r: seq<SmartStudent>, n: int, space: nat, s: SmartStudent,
                     r': seq<SmartStudent>, n': int, back: Option<SmartStudent>)
  {
    n' == n - 1
    && if |r| < space then
         back == None && r' == r + [s.SetOrder(n)]
       else
         r != []
         && var m := LeastIndex(r);
         var w := r[m].IncrCurrentChoice();
         if s.Grade() > w.Grade() then
           back == Some(w.IncrCurrentChoice()) && r' == Without(r, m) + [s.SetOrder(n)]
         else
           back == Some(s.IncrCurrentChoice()) && r' == Without(r, m) + [w.SetOrder(n)]
  }

  function ToSeq(o: Option<SmartStudent>): seq<SmartStudent> {
    if o.Some? then [o.value] else []
  }

  /** A step that proposes to a session is that session's proposal. */
  lemma NextProposed(c: Config, names: seq<string>, spaces: seq<nat>, k: nat, j: nat,
                     r': seq<SmartStudent>, n': int, back: Option<SmartStudent>)
    requires WellFormed(c, names, spaces) && k < |c.pool|
    requires !c.pool[k].Exhausted() && Lookup(names, GetChoice(c.pool[k].base, c.pool[k].currentChoice)) == Some(j)
    requires Proposed(c.rosters[j], c.counters[j], spaces[j], c.pool[k], r', n', back)
    ensures Next(c, names, spaces, k)
            == c.(pool := Rest(c.pool, k) + ToSeq(back), rosters := c.rosters[j := r'], counters := c.counters[j := n'])
  {
    if back == None {
      assert Rest(c.pool, k) + ToSeq(back) == Rest(c.pool, k);
    }
  }

  // ---------------------------------------------------------------------
  // Sums over students

  /** The students themselves (without cursor and stamp), as a multiset. */
  function Bases(s: seq<SmartStudent>): multiset<Student> {
    if s == [] then multiset{} else Bases(s[..|s| - 1]) + multiset{s[|s| - 1].base}
  }

  /** Choices a student has not yet been turned away from. */
  function Left(x: SmartStudent): nat {
    if x.currentChoice < |x.base.choices| then |x.base.choices| - x.currentChoice else 0
  }

  function Pot(s: seq<SmartStudent>): nat {
    if s == [] then 0 else Pot(s[..|s| - 1]) + Left(s[|s| - 1])
  }

  function GradeSum(s: seq<SmartStudent>): int {
    if s == [] then 0 else GradeSum(s[..|s| - 1]) + s[|s| - 1].Grade()
  }

  predicate AllAtLeast(s: seq<SmartStudent>, floor: int) {
    forall i :: 0 <= i < |s| ==> s[i].Grade() >= floor
  }

  /** The grades in `s`, each counted from `floor`. */
  function Weight(s: seq<SmartStudent>, floor: int): nat
    requires AllAtLeast(s, floor)
  {
    if s == [] then 0 else Weight(s[..|s| - 1], floor) + (s[|s| - 1].Grade() - floor)
  }

  lemma {:induction false} SumsAppend(a: seq<SmartStudent>, b: seq<SmartStudent>, floor: int)
    ensures Bases(a + b) == Bases(a) + Bases(b)
    ensures Pot(a + b) == Pot(a) + Pot(b)
    ensures GradeSum(a + b) == GradeSum(a) + GradeSum(b)
    ensures AllAtLeast(a, floor) && AllAtLeast(b, floor) ==>
              AllAtLeast(a + b, floor) && Weight(a + b, floor) == Weight(a, floor) + Weight(b, floor)
    decreases |b|
  {
    if b == [] {
      assert a + b == a;
    } else {
      var b' := b[..|b| - 1];
      assert (a + b)[..|a + b| - 1] == a + b';
      SumsAppend(a, b', floor);
    }
  }

  /** Taking the student at position k out of `s` takes exactly its share
      out of every sum. */
  lemma SumsSplit(s: seq<SmartStudent>, k: nat, floor: int)
    requires k < |s|
    ensures Bases(s) == Bases(s[..k] + s[k + 1..]) + multiset{s[k].base}
    ensures Pot(s) == Pot(s[..k] + s[k + 1..]) + Left(s[k])
    ensures GradeSum(s) == GradeSum(s[..k] + s[k + 1..]) + s[k].Grade()
    ensures AllAtLeast(s, floor) ==>
              (AllAtLeast(s[..k] + s[k + 1..], floor)
               && Weight(s, floor) == Weight(s[..k] + s[k + 1..], floor) + (s[k].Grade() - floor))
  {
    assert s == s[..k] + [s[k]] + s[k + 1..];
    SumsAppend(s[..k], [s[k]], floor);
    SumsAppend(s[..k] + [s[k]], s[k + 1..], floor);
    SumsAppend(s[..k], s[k + 1..], floor);
    assert [s[k]][..0] == [];
    assert AllAtLeast(s, floor) ==> AllAtLeast(s[..k], floor) && AllAtLeast(s[k + 1..], floor);
  }

  /** Everybody in session rosters, as a multiset of students. */
  function Held(rs: seq<seq<SmartStudent>>): multiset<Student> {
    if rs == [] then multiset{} else Held(rs[..|rs| - 1]) + Bases(rs[|rs| - 1])
  }

  function PotAll(rs: seq<seq<SmartStudent>>): nat {
    if rs == [] then 0 else PotAll(rs[..|rs| - 1]) + Pot(rs[|rs| - 1])
  }

  predicate HeldAtLeast(rs: seq<seq<SmartStudent>>, floor: int) {
    forall j :: 0 <= j < |rs| ==> AllAtLeast(rs[j], floor)
  }

  /** Replacing one roster changes the totals by that roster's difference. */
  lemma {:induction false} HeldUpdate(rs: seq<seq<SmartStudent>>, j: nat, r: seq<SmartStudent>)
    requires j < |rs|
    ensures Held(rs[j := r]) + Bases(rs[j]) == Held(rs) + Bases(r)
    decreases |rs|
  {
    var n := |rs| - 1;
    var rs' := rs[j := r];
    if j == n {
      assert rs'[..n] == rs[..n];
    } else {
      var a := rs[..n];
      assert rs'[..n] == a[j := r] && rs'[n] == rs[n] && a[j] == rs[j];
      HeldUpdate(a, j, r);
      AddOnBothSides(Held(a[j := r]), Held(a), Bases(rs[n]), Bases(rs[j]), Bases(r));
    }
  }

  /** Adding the same multiset to both sides of an equation. */
  lemma AddOnBothSides(p: multiset<Student>, q: multiset<Student>, x: multiset<Student>, y: multiset<Student>, z: multiset<Student>)
    requires p + y == q + z
    ensures p + x + y == q + x + z
  {
    assert p + x + y == (p + y) + x;
    assert q + x + z == (q + z) + x;
  }

  lemma {:induction false} PotAllUpdate(rs: seq<seq<SmartStudent>>, j: nat, r: seq<SmartStudent>)
    requires j < |rs|
    ensures PotAll(rs[j := r]) + Pot(rs[j]) == PotAll(rs) + Pot(r)
    decreases |rs|
  {
    var n := |rs| - 1;
    var rs' := rs[j := r];
    if j == n {
      assert rs'[..n] == rs[..n];
    } else {
      assert rs'[..n] == rs[..n][j := r];
      PotAllUpdate(rs[..n], j, r);
      assert rs[..n][j] == rs[j];
    }
  }

  /** Everybody taking part in the run, wherever they are. */
  function Everyone(c: Config): multiset<Student> {
    Bases(c.pool) + Bases(c.unassigned) + Held(c.rosters)
  }

  /** What the loop uses up: choices not yet refused. */
  function Potential(c: Config): nat {
    Pot(c.pool) + Pot(c.unassigned) + PotAll(c.rosters)
  }

  predicate AtLeast(c: Config, floor: int) {
    AllAtLeast(c.pool, floor) && HeldAtLeast(c.rosters, floor)
  }

  /** The lexicographic order in which the loop's measure goes down. */
  predicate LexLess(p: nat, n: nat, w: nat, p0: nat, n0: nat, w0: nat) {
    p < p0 || (p == p0 && (n < n0 || (n == n0 && w < w0)))
  }

  // ---------------------------------------------------------------------
  // What a step keeps

  /** Every step keeps each roster within its capacity with distinct stamps,
      and only exhausted students ever become unassigned. */
  lemma NextWellFormed(c: Config, names: seq<string>, spaces: seq<nat>, k: nat)
    requires WellFormed(c, names, spaces) && k < |c.pool|
    ensures WellFormed(Next(c, names, spaces, k), names, spaces)
  {
    var s := c.pool[k];
    if !s.Exhausted() {
      match Lookup(names, GetChoice(s.base, s.currentChoice))
      case None =>
      case Some(j) =>
        var r, n := c.rosters[j], c.counters[j];
        if |r| < spaces[j] {
          AdmitKeepsRosterOk(r, n, spaces[j], s);
        } else {
          var m := LeastIndex(r);
          EvictKeepsRosterOk(r, n, spaces[j], m);
          AdmitKeepsRosterOk(Without(r, m), n, spaces[j], s);
          AdmitKeepsRosterOk(Without(r, m), n, spaces[j], r[m].IncrCurrentChoice());
        }
    }
  }

  /** Session j admits `s`: `s` joins its roster with the session's stamp,
      and the counter goes down. */
  function Admit(c: Config, j: nat, s: SmartStudent): Config
    requires j < |c.rosters| && j < |c.counters|
  {
    c.(rosters := c.rosters[j := c.rosters[j] + [s.SetOrder(c.counters[j])]],
       counters := c.counters[j := c.counters[j] - 1])
  }

  /** Admitting into a session with room keeps the run invariant. */
  lemma AdmitKeepsWellFormed(c: Config, names: seq<string>, spaces: seq<nat>, j: nat, s: SmartStudent)
    requires WellFormed(c, names, spaces) && j < |spaces| && |c.rosters[j]| < spaces[j]
    ensures WellFormed(Admit(c, j, s), names, spaces)
  {
    AdmitKeepsRosterOk(c.rosters[j], c.counters[j], spaces[j], s);
  }

  lemma HeldAtLeastUpdate(rs: seq<seq<SmartStudent>>, j: nat, r: seq<SmartStudent>, floor: int)
    requires j < |rs| && HeldAtLeast(rs, floor) && AllAtLeast(r, floor)
    ensures HeldAtLeast(rs[j := r], floor)
  {
  }

  /** The three ways a step can end for the student it takes from the pool
      whose cursor is still within its list: turned away by an unknown name,
      seated in a session with room, or contesting a full session. */
  predicate Chooses(c: Config, names: seq<string>, k: nat, j: Option<nat>)
    requires k < |c.pool|
  {
    !c.pool[k].Exhausted() && Lookup(names, GetChoice(c.pool[k].base, c.pool[k].currentChoice)) == j
  }

  lemma ExhaustedCase(c: Config, names: seq<string>, spaces: seq<nat>, k: nat, floor: int)
    requires WellFormed(c, names, spaces) && k < |c.pool| && AtLeast(c, floor)
    requires c.pool[k].Exhausted()
    ensures var c' := Next(c, names, spaces, k);
            Everyone(c') == Everyone(c) && AtLeast(c', floor)
            && LexLess(Potential(c'), |c'.pool|, Weight(c'.pool, floor), Potential(c), |c.pool|, Weight(c.pool, floor))
  {
    var s := c.pool[k];
    var c' := c.(pool := Rest(c.pool, k), unassigned := c.unassigned + [s]);
    assert Next(c, names, spaces, k) == c';
    SumsSplit(c.pool, k, floor);
    SumsAppend(c.unassigned, [s], floor);
    assert [s][..0] == [];
  }

  lemma UnknownCase(c: Config, names: seq<string>, spaces: seq<nat>, k: nat, floor: int)
    requires WellFormed(c, names, spaces) && k < |c.pool| && AtLeast(c, floor)
    requires Chooses(c, names, k, None)
    ensures var c' := Next(c, names, spaces, k);
            Everyone(c') == Everyone(c) && AtLeast(c', floor)
            && LexLess(Potential(c'), |c'.pool|, Weight(c'.pool, floor), Potential(c), |c.pool|, Weight(c.pool, floor))
  {
    var s := c.pool[k];
    var rest := Rest(c.pool, k);
    var c' := c.(pool := rest + [s.IncrCurrentChoice()]);
    assert Next(c, names, spaces, k) == c';
    SumsSplit(c.pool, k, floor);
    SumsAppend(rest, [s.IncrCurrentChoice()], floor);
    assert [s.IncrCurrentChoice()][..0] == [];
  }

  /** The bookkeeping behind a swap, on multisets alone: the pool `p` loses
      `x` and gains `back`, the rosters' total `h` becomes `h'` by trading
      roster `r` for `r'`, and `r'` with `back` is `r` with `x`. */
  lemma Rebalance(p: multiset<Student>, rest: multiset<Student>, back: multiset<Student>, u: multiset<Student>,
                  h: multiset<Student>, h': multiset<Student>, r: multiset<Student>, r': multiset<Student>, x: Student)
    requires p == rest + multiset{x}
    requires h' + r == h + r'
    requires r' + back == r + multiset{x}
    ensures rest + back + u + h' == p + u + h
  {
    forall y ensures (rest + back + u + h')[y] == (p + u + h)[y] {
      assert (h' + r)[y] == (h + r')[y];
      assert (r' + back)[y] == (r + multiset{x})[y];
    }
  }

  /** A step that takes the student at position k out of the pool, puts
      `back` (a student or none) into the pool and replaces roster j by `r'`,
      which differs from the old roster by exactly the student taken out and
      the one put back, keeps everybody. */
  lemma SwapKeepsEveryone(c: Config, k: nat, j: nat, back: seq<SmartStudent>, r': seq<SmartStudent>)
    requires k < |c.pool| && j < |c.rosters|
    requires Bases(r') + Bases(back) == Bases(c.rosters[j]) + multiset{c.pool[k].base}
    ensures Everyone(c.(pool := Rest(c.pool, k) + back, rosters := c.rosters[j := r'])) == Everyone(c)
  {
    var rest := Rest(c.pool, k);
    SumsSplit(c.pool, k, 0);
    SumsAppend(rest, back, 0);
    HeldUpdate(c.rosters, j, r');
    Rebalance(Bases(c.pool), Bases(rest), Bases(back), Bases(c.unassigned),
              Held(c.rosters), Held(c.rosters[j := r']), Bases(c.rosters[j]), Bases(r'), c.pool[k].base);
  }

  /** The measure part of the same step: choices not used up can only go
      down when the student put back is the one taken out or the evicted
      holder with its cursor moved on. */
  lemma {:induction false} SwapPotential(c: Config, k: nat, j: nat, back: seq<SmartStudent>, r': seq<SmartStudent>)
    requires k < |c.pool| && j < |c.rosters| && |back| <= 1
    ensures var c' := c.(pool := Rest(c.pool, k) + back, rosters := c.rosters[j := r']);
            Potential(c') + Pot(c.rosters[j]) + Left(c.pool[k]) == Potential(c) + Pot(r') + Pot(back)
  {
    var rest := Rest(c.pool, k);
    SumsSplit(c.pool, k, 0);
    SumsAppend(rest, back, 0);
    PotAllUpdate(c.rosters, j, r');
  }

  lemma RoomCase(c: Config, names: seq<string>, spaces: seq<nat>, k: nat, j: nat, floor: int)
    requires WellFormed(c, names, spaces) && k < |c.pool| && AtLeast(c, floor)
    requires Chooses(c, names, k, Some(j)) && |c.rosters[j]| < spaces[j]
    ensures var c' := Next(c, names, spaces, k);
            Everyone(c') == Everyone(c) && AtLeast(c', floor)
            && LexLess(Potential(c'), |c'.pool|, Weight(c'.pool, floor), Potential(c), |c.pool|, Weight(c.pool, floor))
  {
    var s := c.pool[k];
    var r, n := c.rosters[j], c.counters[j];
    var r' := r + [s.SetOrder(n)];
    var c0 := c.(pool := Rest(c.pool, k) + [], rosters := c.rosters[j := r']);
    var c' := c0.(counters := c.counters[j := n - 1]);
    assert Rest(c.pool, k) + [] == Rest(c.pool, k);
    assert Next(c, names, spaces, k) == c';
    SumsAppend(r, [s.SetOrder(n)], floor);
    assert [s.SetOrder(n)][..0] == [];
    SwapKeepsEveryone(c, k, j, [], r');
    SwapPotential(c, k, j, [], r');
    SumsSplit(c.pool, k, floor);
    HeldAtLeastUpdate(c.rosters, j, r', floor);
  }

  /** The roster after a contest: the holder at position m leaves and the
      winner, stamped n, joins. */
  function Contested(r: seq<SmartStudent>, m: nat, n: int, winner: SmartStudent): seq<SmartStudent>
    requires m < |r|
  {
    Without(r, m) + [winner.SetOrder(n)]
  }

  /** The configuration after a contest for roster j, without the counter. */
  function AfterContest(c: Config, k: nat, j: nat, m: nat, n: int, winner: SmartStudent, loser: SmartStudent): Config
    requires k < |c.pool| && j < |c.rosters| && m < |c.rosters[j]|
  {
    c.(pool := Rest(c.pool, k) + [loser], rosters := c.rosters[j := Contested(c.rosters[j], m, n, winner)])
  }

  lemma ContestSums(r: seq<SmartStudent>, m: nat, n: int, winner: SmartStudent)
    requires m < |r|
    ensures Bases(Contested(r, m, n, winner)) + multiset{r[m].base} == Bases(r) + multiset{winner.base}
    ensures Pot(Contested(r, m, n, winner)) + Left(r[m]) == Pot(r) + Left(winner)
  {
    var t := Without(r, m);
    var w := winner.SetOrder(n);
    assert w.base == winner.base && Left(w) == Left(winner);
    SumsSplit(r, m, 0);
    SumsAppend(t, [w], 0);
    Single(w);
    assert Contested(r, m, n, winner) == t + [w];
  }

  lemma Single(x: SmartStudent)
    ensures Bases([x]) == multiset{x.base} && Pot([x]) == Left(x)
  {
    assert [x][..0] == [];
  }

  lemma ContestAtLeast(r: seq<SmartStudent>, m: nat, n: int, winner: SmartStudent, floor: int)
    requires m < |r| && AllAtLeast(r, floor) && winner.Grade() >= floor
    ensures AllAtLeast(Contested(r, m, n, winner), floor)
  {
    SumsSplit(r, m, floor);
  }

  /** A contest for a full roster: the newcomer at position k of the pool
      and the holder at position m of roster j come out as a `winner`, who
      takes the freed seat, and a `loser`, who goes back into the pool; if they
      are the same two students, nobody is lost or gained. */
  lemma ContestKeepsEveryone(c: Config, k: nat, j: nat, m: nat, n: int, winner: SmartStudent, loser: SmartStudent)
    requires k < |c.pool| && j < |c.rosters| && m < |c.rosters[j]|
    requires multiset{winner.base, loser.base} == multiset{c.pool[k].base, c.rosters[j][m].base}
    ensures Everyone(AfterContest(c, k, j, m, n, winner, loser)) == Everyone(c)
  {
    var r := c.rosters[j];
    var r' := Contested(r, m, n, winner);
    ContestSums(r, m, n, winner);
    Single(loser);
    var x, y, a, b := c.pool[k].base, r[m].base, winner.base, loser.base;
    forall z ensures (Bases(r') + Bases([loser]))[z] == (Bases(r) + multiset{x})[z] {
      assert (Bases(r') + multiset{y})[z] == (Bases(r) + multiset{a})[z];
      assert multiset{a, b}[z] == multiset{x, y}[z];
    }
    SwapKeepsEveryone(c, k, j, [loser], r');
  }

  /** With no more choices left between them, and with a lower grade going
      back when exactly as many, the measure goes down; and nobody drops
      below `floor`. */
  lemma ContestDecreases(c: Config, k: nat, j: nat, m: nat, n: int, winner: SmartStudent, loser: SmartStudent, floor: int)
    requires k < |c.pool| && j < |c.rosters| && m < |c.rosters[j]| && AtLeast(c, floor)
    requires winner.Grade() >= floor && loser.Grade() >= floor
    requires Left(winner) + Left(loser) <= Left(c.pool[k]) + Left(c.rosters[j][m])
    requires Left(winner) + Left(loser) == Left(c.pool[k]) + Left(c.rosters[j][m]) ==> loser.Grade() < c.pool[k].Grade()
    ensures var c' := AfterContest(c, k, j, m, n, winner, loser);
            AtLeast(c', floor)
            && LexLess(Potential(c'), |c'.pool|, Weight(c'.pool, floor), Potential(c), |c.pool|, Weight(c.pool, floor))
  {
    var rest := Rest(c.pool, k);
    var r := c.rosters[j];
    var r' := Contested(r, m, n, winner);
    ContestSums(r, m, n, winner);
    ContestAtLeast(r, m, n, winner, floor);
    Single(loser);
    SwapPotential(c, k, j, [loser], r');
    SumsSplit(c.pool, k, floor);
    SumsAppend(rest, [loser], floor);
    HeldAtLeastUpdate(c.rosters, j, r', floor);
  }

  lemma FullCase(c: Config, names: seq<string>, spaces: seq<nat>, k: nat, j: nat, floor: int)
    requires WellFormed(c, names, spaces) && k < |c.pool| && AtLeast(c, floor)
    requires Chooses(c, names, k, Some(j)) && |c.rosters[j]| >= spaces[j]
    ensures var c' := Next(c, names, spaces, k);
            Everyone(c') == Everyone(c) && AtLeast(c', floor)
            && LexLess(Potential(c'), |c'.pool|, Weight(c'.pool, floor), Potential(c), |c.pool|, Weight(c.pool, floor))
  {
    var s := c.pool[k];
    var r, n := c.rosters[j], c.counters[j];
    var m := LeastIndex(r);
    var w := r[m].IncrCurrentChoice();
    assert AllAtLeast(r, floor);
    var winner, loser;
    if s.Grade() > w.Grade() {
      winner, loser := s, w.IncrCurrentChoice();
    } else {
      winner, loser := w, s.IncrCurrentChoice();
    }
    var c' := AfterContest(c, k, j, m, n, winner, loser);
    assert Next(c, names, spaces, k) == c'.(counters := c.counters[j := n - 1]);
    ContestKeepsEveryone(c, k, j, m, n, winner, loser);
    ContestDecreases(c, k, j, m, n, winner, loser, floor);
  }

  /** Every step only moves students around: each of them stays in exactly
      one place, the pool, a roster or the unassigned list. And the loop's
      measure goes down: every step either uses up a choice (a cursor moves on
      without being past the list), or keeps the choices and shrinks the
      pool, or keeps both and puts a strictly lower grade back into the pool
      than the one it took out (a displacement). */
  lemma NextKeepsEveryoneAndDecreases(c: Config, names: seq<string>, spaces: seq<nat>, k: nat, floor: int)
    requires WellFormed(c, names, spaces) && k < |c.pool| && AtLeast(c, floor)
    ensures var c' := Next(c, names, spaces, k);
            Everyone(c') == Everyone(c) && AtLeast(c', floor)
            && LexLess(Potential(c'), |c'.pool|, Weight(c'.pool, floor), Potential(c), |c.pool|, Weight(c.pool, floor))
  {
    var s := c.pool[k];
    if s.Exhausted() {
      ExhaustedCase(c, names, spaces, k, floor);
    } else {
      var found := Lookup(names, GetChoice(s.base, s.currentChoice));
      if found.None? {
        UnknownCase(c, names, spaces, k, floor);
      } else if |c.rosters[found.value]| < spaces[found.value] {
        RoomCase(c, names, spaces, k, found.value, floor);
      } else {
        FullCase(c, names, spaces, k, found.value, floor);
      }
    }
  }

  // ---------------------------------------------------------------------
  // Where the student taken from the pool goes

  /** A student joins the unassigned exactly when its cursor has run past
      its list; otherwise the unassigned are left alone. A name that is no
      session sends the student back into the pool with its cursor moved on,
      and touches no roster. */
  lemma NextRoutes(c: Config, names: seq<string>, spaces: seq<nat>, k: nat)
    requires WellFormed(c, names, spaces) && k < |c.pool|
    ensures var c' := Next(c, names, spaces, k);
            (c.pool[k].Exhausted() <==> c'.unassigned == c.unassigned + [c.pool[k]])
            && (!c.pool[k].Exhausted() ==> c'.unassigned == c.unassigned)
            && (Chooses(c, names, k, None) ==>
                  c'.pool == Rest(c.pool, k) + [c.pool[k].IncrCurrentChoice()]
                  && c'.rosters == c.rosters && c'.counters == c.counters)
  {
    var c' := Next(c, names, spaces, k);
    if !c.pool[k].Exhausted() {
      assert |c'.unassigned| == |c.unassigned|;
    }
  }

  /** A session with room seats the student with the session's current
      stamp and the counter goes down; nobody goes back into the pool. */
  lemma RoomSeats(c: Config, names: seq<string>, spaces: seq<nat>, k: nat, j: nat)
    requires WellFormed(c, names, spaces) && k < |c.pool|
    requires Chooses(c, names, k, Some(j)) && |c.rosters[j]| < spaces[j]
    ensures var c' := Next(c, names, spaces, k);
            c'.pool == Rest(c.pool, k)
            && c'.rosters[j] == c.rosters[j] + [c.pool[k].SetOrder(c.counters[j])]
            && c'.counters[j] == c.counters[j] - 1
            && |c'.rosters[j]| <= spaces[j]
  {
  }

  /** A contest for a full session: the newcomer takes the seat only with a
      strictly higher grade than the least holder. Whoever loses goes back into
      the pool: the holder with its cursor moved on twice (once by the
      session's `pop`, once by the engine), so it skips a choice; or the
      newcomer with its cursor moved on once. A holder that keeps its seat is
      re-admitted with its cursor already moved on and a fresh stamp. The
      roster stays exactly full. */
  lemma FullContest(c: Config, names: seq<string>, spaces: seq<nat>, k: nat, j: nat)
    requires WellFormed(c, names, spaces) && k < |c.pool|
    requires Chooses(c, names, k, Some(j)) && |c.rosters[j]| >= spaces[j]
    ensures var c' := Next(c, names, spaces, k);
            var s, r := c.pool[k], c.rosters[j];
            var h := r[LeastIndex(r)];
            |c'.pool| == |c.pool| && |c'.rosters[j]| == |r| == spaces[j]
            && var back, seated := c'.pool[|c'.pool| - 1], c'.rosters[j][|r| - 1];
            seated.order == c.counters[j]
            && (s.Grade() > h.Grade() ==>
                  seated.base == s.base && seated.currentChoice == s.currentChoice
                  && back.base == h.base && back.currentChoice == h.currentChoice + 2)
            && (s.Grade() <= h.Grade() ==>
                  seated.base == h.base && seated.currentChoice == h.currentChoice + 1
                  && back.base == s.base && back.currentChoice == s.currentChoice + 1)
  {
  }

  // ---------------------------------------------------------------------
  // A floor under all grades in play

  function Lowest(s: seq<SmartStudent>): (m: int)
    ensures AllAtLeast(s, m)
    ensures s != [] ==> exists i :: 0 <= i < |s| && s[i].Grade() == m
  {
    if s == [] then 0
    else
      var m := Lowest(s[..|s| - 1]);
      var g := s[|s| - 1].Grade();
      assert forall i :: 0 <= i < |s| - 1 ==> s[i] == s[..|s| - 1][i];
      if s[..|s| - 1] == [] || g < m then g else m
  }

  function LowestHeld(rs: seq<seq<SmartStudent>>): (m: int)
    ensures HeldAtLeast(rs, m)
  {
    if rs == [] then 0
    else
      var m := LowestHeld(rs[..|rs| - 1]);
      var g := Lowest(rs[|rs| - 1]);
      assert forall j :: 0 <= j < |rs| - 1 ==> rs[j] == rs[..|rs| - 1][j];
      var f := if g < m then g else m;
      assert forall j :: 0 <= j < |rs| ==> AllAtLeast(rs[j], f);
      f
  }

  /** A grade no student in the pool or in a roster is below. */
  function Floor(c: Config): (f: int)
    ensures AtLeast(c, f)
  {
    var a, b := Lowest(c.pool), LowestHeld(c.rosters);
    var f := if a < b then a else b;
    assert AllAtLeast(c.pool, f) && HeldAtLeast(c.rosters, f);
    f
  }
}
