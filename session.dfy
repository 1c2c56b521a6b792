/** A session of the greedy engine (session.py): a roster that students are
    appended to while seats are `left`, and a `score` adding up, for every
    student admitted, the 1-based rank the session had among its choices. */
module Sessions {
  import opened Students

  /** The state of a session that `add_student` changes. */
  datatype SessionState = SessionState(roster: seq<Student>, left: int, score: int)

  /** A successful `add_student` of `s`, which ranked this session at
      0-based position `preference`. */
  function Added(v: SessionState, s: Student, preference: int): (v': SessionState)
    ensures v'.roster == v.roster + [s] && v'.left == v.left - 1
  {
    SessionState(v.roster + [s], v.left - 1, v.score + preference + 1)
  }

  /** Σ (p + 1) over the preferences of the admitted students. */
  function Points(preferences: seq<int>): int {
    if preferences == [] then 0 else Points(preferences[..|preferences| - 1]) + preferences[|preferences| - 1] + 1
  }

  class Session {
    const name: string
    const space: int
    var roster: seq<Student>
    var left: int
    var score: int
    /** The `preference` argument of every successful `add_student`, in the
        order of the roster. */
    ghost var preferences: seq<int>

    /** Seats taken and seats left always add up to `space`; a roster is only
        ever added to while a seat is left, so a session created with no room
        stays empty; and the score is the sum of the admissions' ranks. */
    ghost predicate Valid()
      reads this
    {
      left + |roster| == space && (roster != [] ==> left >= 0)
      && |preferences| == |roster| && score == Points(preferences)
    }

    function State(): SessionState
      reads this
    {
      SessionState(roster, left, score)
    }

    /** `Session.__init__`: the name is normalised, every seat is left, the
        roster is empty and the score is 0. The capacity is kept as given,
        even when it is not positive. */
    constructor (name: string, space: int)
      ensures Valid()
      ensures this.name == Normalize(name) && this.space == space
      ensures left == space && roster == [] && score == 0
    {
      this.name := Normalize(name);
      this.space := space;
      left := space;
      roster := [];
      score := 0;
      preferences := [];
    }

    /** `copy.deepcopy` of one session: a new object in the same state. */
    constructor Copy(other: Session)
      requires other.Valid()
      ensures Valid()
      ensures name == other.name && space == other.space && State() == other.State()
      ensures preferences == other.preferences
    {
      name := other.name;
      space := other.space;
      roster := other.roster;
      left := other.left;
      score := other.score;
      preferences := other.preferences;
    }

    /** `has_space`. */
    predicate HasSpace()
      reads this
    {
      left > 0
    }

    /** `add_student` (the call site's `register`): with a seat left, the
        student is appended, one seat fewer is left and the score grows by
        the session's 1-based rank among the student's choices; otherwise
        nothing changes. */
    method AddStudent(student: Student, preference: int) returns (ok: bool)
      requires Valid()
      modifies this
      ensures Valid()
      ensures ok == (old(left) > 0)
      ensures ok ==> State() == Added(old(State()), student, preference)
                     && preferences == old(preferences) + [preference]
      ensures !ok ==> State() == old(State()) && preferences == old(preferences)
    {
      if HasSpace() {
        assert (preferences + [preference])[..|preferences|] == preferences;
        roster := roster + [student];
        left := left - 1;
        score := score + preference + 1;
        preferences := preferences + [preference];
        ok := true;
      } else {
        ok := false;
      }
    }
  }

  /** A valid session never holds more students than its capacity, holds
      nobody when its capacity is not positive, and has space exactly when
      fewer students than its capacity hold a seat. */
  lemma WithinSpace(s: Session)
    requires s.Valid()
    ensures s.space >= 0 ==> |s.roster| <= s.space
    ensures s.space <= 0 ==> s.roster == []
    ensures s.HasSpace() <==> |s.roster| < s.space
  {
  }

  /** The score only ever grows by the ranks of the students admitted:
      admitting with preference p adds exactly p + 1 to the sum of ranks. */
  lemma {:induction false} PointsAppend(preferences: seq<int>, p: int)
    ensures Points(preferences + [p]) == Points(preferences) + p + 1
    ensures (forall i :: 0 <= i < |preferences| ==> preferences[i] >= 0) ==> Points(preferences) >= |preferences|
    decreases |preferences|
  {
    assert (preferences + [p])[..|preferences|] == preferences;
    if preferences != [] {
      PointsAppend(preferences[..|preferences| - 1], preferences[|preferences| - 1]);
    }
  }
}
