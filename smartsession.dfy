/** A session in deferred acceptance (smartsession.py): a roster of at most
    `space` students from which the least one, by grade and then by
    admission stamp, is taken first; every admission stamps the student with
    the session's counter, which then goes down by one. */
module SmartSessions {
  import opened Optional
  import opened Students
  import opened SmartStudents

  /** Position `k` holds a least student of `r`: nobody in `r` is `Less`. */
  predicate IsLeast(r: seq<SmartStudent>, k: nat) {
    k < |r| && forall i :: 0 <= i < |r| ==> !Less(r[i], r[k])
  }

  /** The position the priority queue's `get` takes its student from. */
  function LeastIndex(r: seq<SmartStudent>): (k: nat)
    requires r != []
    ensures IsLeast(r, k)
  {
    if |r| == 1 then 0
    else
      var k := LeastIndex(r[1..]) + 1;
      assert forall i :: 1 <= i < |r| ==> r[i] == r[1..][i - 1];
      if Less(r[0], r[k]) then 0 else k
  }

  /** `r` with position `k` taken out. */
  function Without(r: seq<SmartStudent>, k: nat): (t: seq<SmartStudent>)
    requires k < |r|
    ensures |t| == |r| - 1
    ensures multiset(t) + multiset{r[k]} == multiset(r)
  {
    assert r == r[..k] + [r[k]] + r[k + 1..];
    r[..k] + r[k + 1..]
  }

  /** The roster invariant: never more than `space` students, and every
      holder carries its own stamp, each above the counter. */
  predicate RosterOk(r: seq<SmartStudent>, counter: int, space: nat) {
    |r| <= space && counter <= 0
    && (forall i :: 0 <= i < |r| ==> r[i].order > counter)
    && (forall i, j :: 0 <= i < j < |r| ==> r[i].order != r[j].order)
  }

  /** Admitting into a roster with room keeps the invariant, and the newcomer's
      stamp is strictly below every stamp already there. */
  lemma AdmitKeepsRosterOk(r: seq<SmartStudent>, counter: int, space: nat, s: SmartStudent)
    requires RosterOk(r, counter, space) && |r| < space
    ensures RosterOk(r + [s.SetOrder(counter)], counter - 1, space)
    ensures forall i :: 0 <= i < |r| ==> (r + [s.SetOrder(counter)])[|r|].order < r[i].order
  {
  }

  /** Taking any holder out keeps the invariant. */
  lemma EvictKeepsRosterOk(r: seq<SmartStudent>, counter: int, space: nat, k: nat)
    requires RosterOk(r, counter, space) && k < |r|
    ensures RosterOk(Without(r, k), counter, space)
  {
    var t := Without(r, k);
    forall i | 0 <= i < |t| ensures t[i] == r[if i < k then i else i + 1] {
    }
  }

  /** Stamps are distinct within a roster, so its least student is unique:
      the choice `LeastIndex` makes is the only one the queue could make. */
  lemma LeastIsUnique(r: seq<SmartStudent>, counter: int, space: nat, a: nat, b: nat)
    requires RosterOk(r, counter, space)
    requires IsLeast(r, a) && IsLeast(r, b)
    ensures a == b
  {
    LessIsStrictOrder(r[a], r[b], r[a]);
  }

  class SmartSession {
    const name: string
    const space: nat
    var roster: seq<SmartStudent>
    var orderCounter: int

    ghost predicate Valid()
      reads this
    {
      space > 0 && RosterOk(roster, orderCounter, space)
    }

    /** `SmartSession.__init__`; the unused `all_students` argument is
        dropped. */
    constructor (name: string, space: nat)
      requires space > 0
      ensures Valid()
      ensures this.name == Normalize(name) && this.space == space
      ensures roster == [] && orderCounter == 0
    {
      this.name := Normalize(name);
      this.space := space;
      roster := [];
      orderCounter := 0;
    }

    /** The call sites' `has_space`: the queue is not full. */
    predicate HasSpace()
      reads this
    {
      |roster| < space
    }

    /** `add_student` (the call sites' `register`): on a full roster nothing
        changes and the answer is false; otherwise the student is stamped
        with the counter, joins the roster, and the counter goes down. */
    method AddStudent(s: SmartStudent) returns (ok: bool)
      requires Valid()
      modifies this
      ensures Valid()
      ensures ok == (old(|roster|) < space)
      ensures ok ==> roster == old(roster) + [s.SetOrder(old(orderCounter))]
                     && orderCounter == old(orderCounter) - 1
      ensures !ok ==> roster == old(roster) && orderCounter == old(orderCounter)
    {
      if |roster| < space {
        AdmitKeepsRosterOk(roster, orderCounter, space, s);
        roster := roster + [s.SetOrder(orderCounter)];
        orderCounter := orderCounter - 1;
        ok := true;
      } else {
        ok := false;
      }
    }

    /** `pop`: nothing on an empty roster; otherwise the least holder leaves,
        and is handed back with its cursor advanced by one. */
    method Pop() returns (r: Option<SmartStudent>)
      requires Valid()
      modifies this
      ensures Valid()
      ensures orderCounter == old(orderCounter)
      ensures old(roster) == [] ==> r == None && roster == old(roster)
      ensures old(roster) != [] ==>
                var k := LeastIndex(old(roster));
                r == Some(old(roster)[k].IncrCurrentChoice()) && roster == Without(old(roster), k)
    {
      if roster == [] {
        r := None;
      } else {
        var k := LeastIndex(roster);
        EvictKeepsRosterOk(roster, orderCounter, space, k);
        r := Some(roster[k].IncrCurrentChoice());
        roster := Without(roster, k);
      }
    }
  }
}
