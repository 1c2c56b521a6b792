/** A student taking part in deferred acceptance (smartstudent.py): the
    student itself, the admission stamp `order` its current session gave it,
    and the cursor `currentChoice` into its list of choices. */
module SmartStudents {
  import opened Students

  datatype SmartStudent = SmartStudent(base: Student, order: int, currentChoice: nat) {

    function Grade(): int {
      base.grade
    }

    /** `set_order`: only the stamp changes. */
    function SetOrder(o: int): (r: SmartStudent)
      ensures r.base == base && r.currentChoice == currentChoice
      ensures r.order == o
    {
      this.(order := o)
    }

    /** `incr_current_choice`: the cursor moves on by exactly one, nothing
        else changes. */
    function IncrCurrentChoice(): (r: SmartStudent)
      ensures r.base == base && r.order == order
      ensures r.currentChoice == currentChoice + 1
    {
      this.(currentChoice := currentChoice + 1)
    }

    /** The cursor has run past the last choice. */
    predicate Exhausted() {
      currentChoice >= |base.choices|
    }
  }

  /** `SmartStudent.__init__`: a fresh student has stamp 1 and cursor 0. */
  function NewSmartStudent(sid: string, grade: int, choices: seq<string>): (s: SmartStudent)
    ensures s.base == NewStudent(sid, grade, choices)
    ensures s.order == 1 && s.currentChoice == 0
    ensures s.Exhausted() <==> choices == []
  {
    SmartStudent(NewStudent(sid, grade, choices), 1, 0)
  }

  /** `__lt__`: by grade, and by stamp between equal grades. */
  predicate Less(a: SmartStudent, b: SmartStudent) {
    if a.Grade() == b.Grade() then a.order < b.order else a.Grade() < b.Grade()
  }

  /** `__eq__`: same grade, same stamp and same id. */
  predicate Same(a: SmartStudent, b: SmartStudent) {
    a.Grade() == b.Grade() && a.order == b.order && a.base.id == b.base.id
  }

  /** `__hash__` depends on the id alone; the id string stands for its hash. */
  function Hash(a: SmartStudent): string {
    a.base.id
  }

  /** `Less` is the lexicographic order on (grade, stamp): a strict order,
      total between students whose keys differ, and two students are
      incomparable exactly when their keys coincide. */
  lemma LessIsStrictOrder(a: SmartStudent, b: SmartStudent, c: SmartStudent)
    ensures !Less(a, a)
    ensures Less(a, b) ==> !Less(b, a)
    ensures Less(a, b) && Less(b, c) ==> Less(a, c)
    ensures !Less(a, b) && !Less(b, a) <==> a.Grade() == b.Grade() && a.order == b.order
  {
  }

  /** Equal students hash equally, as Python requires of `__eq__`/`__hash__`. */
  lemma SameHashesSame(a: SmartStudent, b: SmartStudent)
    requires Same(a, b)
    ensures Hash(a) == Hash(b)
  {
  }
}
