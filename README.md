# match-students, modelled in Dafny

The repository assigns students to sessions. Each student has an id, a grade
and an ordered list of session names it would like. Each session has a name
and a number of seats. Two engines do the assignment:

- **Deferred acceptance** (`SmartMatch` in smartmatch.py). A pool of students
  proposes, one student at a time, to the session named at the student's
  cursor. A session with a free seat admits the student and stamps it with
  its admission counter, which then goes down by one. A full session pops its
  least holder, by grade and then by stamp. The newcomer keeps the seat only
  with a strictly higher grade; whoever loses goes back into the pool with its
  cursor moved on. A name that is no session just moves the cursor on.
  Students whose cursor has run past their list become unassigned. The run's
  score is the sum of their grades. An optional `prematch` first places the
  students of every session whose demand among the first `top_n` choices fits
  its capacity. `main` repeats the whole run on fresh input and keeps the run
  with the lowest score.
- **Greedy first fit** (match.py). Grades are handled from the highest down.
  Each student is registered into the first of its choices that names a
  session with a seat left. The ids of those placed nowhere are returned.
  `match_n_times` repeats this on deep copies. It keeps the run with the
  fewest unplaced students and stops at the first run that places everybody.

The model is one Dafny module per source file, plus a few shared ones:

- `Students` (student.py) and `SmartStudents` (smartstudent.py): students are
  datatypes. Their mutators (`set_order`, `incr_current_choice`) are
  functional updates.
- `Sessions` (session.py) and `SmartSessions` (smartsession.py): sessions are
  classes whose methods update their fields. The priority-queue roster is a
  sequence with a least-element extraction.
- `DeferredAcceptance`: one pass of `match`'s loop as a function `Next` on a
  value `Config`, which holds the pool, the unassigned, the rosters and the
  counters. This module holds the lemmas about `Next`: capacity, nobody lost
  or duplicated, routing, and a decreasing termination measure.
- `SmartMatching`: the `SmartMatch` class. Its methods are proved to move the
  objects exactly as `Next` moves the value.
- `Presorting`: the specification of `prematch`, with its tallies, qualifying
  sessions and destinations.
- `BestOfRuns`: `main`'s repetition loop.
- `Greedy` (match.py), `Common` (common.py), `Keys` (dictionary lookup by
  name), `Selection` (the "first least score" and "runs performed" choices
  both drivers make) and `Optional`.

Notes on how the model reads the code:

- A displaced holder has its cursor advanced twice: once by
  `SmartSession.pop` and once more by `match`. It therefore skips a choice,
  and cursors can pass the end of a list; such a student is then routed to
  the unassigned. A holder that wins a contest is re-admitted with its cursor
  already advanced. The docstring of `match` (smartmatch.py:28) calls it the
  national medical school residency matching algorithm. In that algorithm,
  deferred acceptance, a rejected applicant moves on exactly once, to its
  next choice. The code does not do that, and the model follows the code.
  `DeferredAcceptance.FullContest` states what the code does.
- A choice that names no session moves the cursor on to the next choice.
- The call sites use `has_space`, `register`, `get_space` and `get_name`,
  which the session classes do not define. They are read as "roster not
  full", `add_student`, the capacity and the stored name.
- `define_sessions` in smartmatch.py calls `SmartSession(name, space)`
  without the third parameter (`all_students`, which the constructor never
  uses). The model's constructor has the two parameters the call site passes.

## Model

| member | source | states |
|---|---|---|
| Students.Strip | student.py:14 | `str.strip()`: the result is the slice of the input after its leading whitespace, only whitespace lies outside it, and it neither starts nor ends with whitespace |
| Students.Lower | student.py:14 | `str.lower()` on ASCII letters: same length, no upper-case ASCII letter is left, every other character is kept, and each capital becomes the letter 32 code points above it; `NormalizeIsNormal` and `NormalIsFixed` state what this gives the normal form |
| Students.NormalizeIsNormal | student.py:14 | a normalised name has no surrounding whitespace and no capital, and normalising it again changes nothing |
| Students.NormalIsFixed | smartmatch.py:308 | a name already in normal form is left alone by the session constructor's normalisation |
| Students.NewStudent | student.py:4-14 | the id and grade are kept as given (what `get_id` returns), the number of choices is unchanged, and each choice is the given one stripped and lower-cased |
| Students.NewStudentIsStable | student.py:14 | building a student from its own stored choices gives the same student |
| Students.GetChoice | student.py:32-42 | the choice at position i within the list, the empty string past its end; `ChoiceIndexRoundTrip` relates it to the position lookup |
| Students.IndexOf | student.py:27-30 | `list.index`: -1 exactly when the name is absent, otherwise the first position holding it |
| Students.GetChoiceIndex | student.py:22-30 | -1 exactly when the session is not among the choices, otherwise the first position naming it |
| Students.ChoiceIndexRoundTrip | student.py:22-42 | `get_choice` at the index `get_choice_index` finds gives the name back, and the index found for the choice at position i is at most i |
| SmartStudents.NewSmartStudent | smartstudent.py:10-13 | a new student has stamp 1 and cursor 0, and is exhausted exactly when it has no choices |
| SmartStudents.SmartStudent.SetOrder | smartstudent.py:15-16 | only the stamp changes, to the value given |
| SmartStudents.SmartStudent.IncrCurrentChoice | smartstudent.py:21-22 | the cursor goes up by exactly one and nothing else changes |
| SmartStudents.LessIsStrictOrder | smartstudent.py:36-40 | `__lt__` is irreflexive, asymmetric and transitive, and two students are incomparable exactly when grade and stamp coincide |
| SmartStudents.SameHashesSame | smartstudent.py:30-34 | students equal under `__eq__` have equal hashes |
| SmartSessions.LeastIndex | smartsession.py:17 | the position `get` takes from holds a student that no holder is below |
| SmartSessions.Without | smartsession.py:17 | taking one holder out leaves exactly the other holders |
| SmartSessions.AdmitKeepsRosterOk | smartsession.py:21-27 | admitting into a roster with room keeps it within capacity with distinct stamps above the counter, and the newcomer's stamp is below every earlier one |
| SmartSessions.EvictKeepsRosterOk | smartsession.py:15-19 | taking any holder out keeps the roster invariant |
| SmartSessions.LeastIsUnique | smartsession.py:17 | with distinct stamps the least holder is unique, so the queue's choice is determined |
| SmartSessions.SmartSession.constructor | smartsession.py:9-13 | the name is normalised, the roster is empty and the counter is 0 |
| SmartSessions.SmartSession.AddStudent | smartsession.py:21-29 | on a full roster: answers false and changes neither roster nor counter; otherwise: stamps the student with the counter, appends it, lowers the counter by one and answers true |
| SmartSessions.SmartSession.Pop | smartsession.py:15-19 | on an empty roster: None and no change; otherwise the least holder leaves, the others stay, and it comes back with its cursor advanced by exactly one |
| Sessions.Added | session.py:36-39 | an admission appends the student and leaves one seat fewer |
| Sessions.Session.constructor | session.py:6-17 | normalised name, every seat left, empty roster, score 0, and the invariant `left + len(roster) == space` |
| Sessions.Session.Copy | match.py:104 | `copy.deepcopy` of one session: a new object with the same name, roster, seats left and score |
| Sessions.Session.AddStudent | session.py:29-42 | answers true exactly when a seat is left; then appends, lowers `left` by one and adds `preference + 1` to the score; otherwise nothing changes; the seat invariant and "score is the sum of the admissions' ranks" are kept |
| Sessions.WithinSpace | session.py:44-48 | `has_space` holds exactly when fewer students than the capacity are seated, and a roster never exceeds a non-negative capacity |
| Sessions.PointsAppend | session.py:39 | each admission adds exactly its rank to the score, and the score is at least the number of students seated |
| Common.IntToStringRoundTrip | common.py:15 | `int(str(n)) == n` for the decimal rendering used in the labels |
| Common.IntToString | common.py:15 | `str(n)`: canonical decimal form, with a minus sign exactly when n is negative |
| Common.CanonicalIsIntToString | common.py:15 | `str(n)` is the only canonical spelling of n: any canonical string that reads back as n equals it |
| Common.ChoiceStr | common.py:3-15 | a non-integer comes back unchanged; 0, 1, 2 give "1st/2nd/3rd choice"; any other n gives `str(n + 1)` followed by "th choice": a canonical decimal (no leading zero, no "-0") that reads back as n + 1 |
| Common.SumDictionary | common.py:18-25 | the loop's total is the sum of the integer values, skipping the others |
| Common.IntSumProperties | common.py:18-25 | the empty dictionary sums to 0, swapping two blocks of entries changes nothing, and a non-integer entry adds nothing |
| Common.IntSumPermutation | common.py:18-25 | the iteration order does not matter: any two orderings of the same entries (equal multisets) give the same total |
| Keys.Lookup | smartmatch.py:38 | `sessions[name]`: nothing (the KeyError) exactly when no key is `name`, otherwise a position holding `name` |
| Keys.LookupDistinct | smartmatch.py:38 | with distinct keys the lookup finds a name exactly at its own position |
| Selection.FirstMin | smartmatch.py:367-369 | the run a strictly-lower-replaces loop keeps has the least score, and every earlier run scored strictly more |
| Selection.FirstMinIsUnique | match.py:106-109 | exactly one run is least with no equal score before it: ties keep the earliest run |
| Selection.FirstMinStep | smartmatch.py:367-369 | one more run takes over exactly when its score is strictly below the best so far |
| Selection.Performed | match.py:99-112 | the number of runs made: every run before the last left somebody unplaced, and the repetition stopped early only right after a run that left nobody |
| Selection.PerformedIsUnique | match.py:110-112 | that number is determined by the position of the first run leaving nobody unplaced |
| DeferredAcceptance.NextProposed | smartmatch.py:36-54 | a step whose student names session j is that session's proposal: its roster and counter change as `Proposed` says, and only the student coming back rejoins the pool |
| DeferredAcceptance.NextWellFormed | smartmatch.py:31-59 | every step keeps each roster within its capacity, with distinct stamps above its counter, and only exhausted students become unassigned |
| DeferredAcceptance.AdmitKeepsWellFormed | smartmatch.py:102 | registering into a session with room keeps the run invariant |
| DeferredAcceptance.NextKeepsEveryoneAndDecreases | smartmatch.py:31-59 | every step keeps the multiset of all students (pool, rosters, unassigned) and strictly lowers the loop's lexicographic measure: choices left, then pool size, then the pool's grades above a floor |
| DeferredAcceptance.ExhaustedCase | smartmatch.py:58-59 | moving an exhausted student to the unassigned keeps everybody and lowers the measure |
| DeferredAcceptance.UnknownCase | smartmatch.py:55-57 | skipping a name that is no session keeps everybody and lowers the measure |
| DeferredAcceptance.RoomCase | smartmatch.py:39-40 | an admission with room keeps everybody and lowers the measure |
| DeferredAcceptance.FullCase | smartmatch.py:41-54 | a contest on a full session keeps everybody and lowers the measure, whoever wins |
| DeferredAcceptance.NextRoutes | smartmatch.py:35-59 | a student joins the unassigned exactly when its cursor is past its list; a name that is no session sends it back with its cursor moved on and touches no roster |
| DeferredAcceptance.RoomSeats | smartmatch.py:39-40 | a session with room seats the student with its current stamp, lowers the counter, and nobody rejoins the pool |
| DeferredAcceptance.FullContest | smartmatch.py:41-54 | on a full session the newcomer wins only with a strictly higher grade; the loser rejoins the pool (a displaced holder with its cursor moved on twice, a rejected newcomer once); a holder that stays is re-admitted with its cursor moved on and the current stamp; the roster stays exactly full |
| Presorting.Occurrences | smartmatch.py:76-83 | how often a name appears among the first positions of a choice list; positive exactly when it appears there |
| Presorting.TallyStep | smartmatch.py:75-83 | the top-N lists and the tallies grow student by student, each by the student's own occurrences |
| Presorting.ListsAt | smartmatch.py:79-82 | the top-N lists after part of a student's choices: each session's list gains the student once per occurrence of its name among the first `top_n` of them |
| Presorting.TalliesAt | smartmatch.py:76-83 | the tallies after part of a student's choices: each session's count grows by the occurrences of its name anywhere in them |
| Presorting.TopListMembers | smartmatch.py:79-82 | a student is on a session's top-N list exactly when it names the session among its first `top_n` choices |
| Presorting.PreNames | smartmatch.py:87-94 | the pre-placement sessions are exactly those named among the first `top_n` choices by somebody and no more often than their capacity |
| Presorting.ClaimedUpTo | smartmatch.py:87-92 | `pre_placement_students` after the first sessions: exactly the pool positions on the list of a qualifying session among them |
| Presorting.Pending | smartmatch.py:85-94 | `pre_placement_students` at the end: exactly the pool positions on the top-N list of some qualifying session |
| Presorting.ClaimedUpToStep | smartmatch.py:87-92 | looking at one more session adds its whole list to `pre_placement_students` exactly when it qualifies |
| Presorting.FirstPre | smartmatch.py:96-105 | the inner loop stops at the first of the first `top_n` positions whose choice names a pre-placement session, or finds none |
| Presorting.ClaimedHasDest | smartmatch.py:95-105 | every pending student has a destination, named by one of its own first `top_n` choices, that qualifies |
| Presorting.RoomForClaimed | smartmatch.py:87-105 | with sessions that start empty, a pending student's destination always has a seat left when the student is registered |
| Presorting.Remaining | smartmatch.py:103 | `self.students` after the pending students are removed: a subsequence of the pool, no longer than it |
| Presorting.RemainingAdd | smartmatch.py:103 | `remove` of one more student takes exactly that student out of the pool |
| Presorting.PlaceOne | smartmatch.py:95-105 | with sessions that start empty, the next pending student's destination has room, and registering it there keeps every roster equal, as a multiset, to the placed students whose destination it is, with nobody lost |
| Presorting.PlaceInto | smartmatch.py:95-105 | registering a pending student into its destination keeps `PlacedIn`: every roster holds, as a multiset, exactly the placed students whose destination it is, and nobody is lost |
| Presorting.Dests | smartmatch.py:96-102 | each pool position paired with its student's destination, as the inner loop finds it |
| Presorting.HeadedToMembers | smartmatch.py:95-105 | a student is among those headed for session j exactly when it stands at a placed position of the pool whose destination is j |
| Presorting.HeadedToCount | smartmatch.py:95-105 | the number of placed students headed for session j is the count of placed positions whose destination is j |
| Presorting.HeadedToAdd | smartmatch.py:103 | placing one more student adds it to the students headed for its own destination and to no other |
| Presorting.AddToRoster | smartmatch.py:100 | appending the student to its destination's roster keeps every roster equal to the placed students headed for it |
| SmartMatching.Propose | smartmatch.py:38-54 | the proposal to one session: admit with room; else pop the least holder, seat the strictly higher grade of the two, and send the other back with its cursor advanced; the session stays valid |
| SmartMatching.TallyChoices | smartmatch.py:76-83 | the inner tally loop over one student's choices ends with the lists and tallies of the specification |
| SmartMatching.SmartMatch.constructor | smartmatch.py:19-24 | keeps students and sessions, nobody unassigned, no tallies, and the run invariant holds |
| SmartMatching.SmartMatch.Enter | smartmatch.py:36-54 | a proposal moves the engine's objects exactly as `Next` moves the value |
| SmartMatching.SmartMatch.Step | smartmatch.py:32-59 | one loop pass, for whichever student `pop` hands out, is `Next` on the snapshot and keeps the invariant |
| SmartMatching.SmartMatch.Match | smartmatch.py:26-64 | ends with an empty pool and the invariant kept; everybody is still in exactly one place; only students with exhausted lists are unassigned; the result is the sum of their grades |
| SmartMatching.SmartMatch.Score | smartmatch.py:61-64 | the closing loop returns the sum of the unassigned students' grades |
| SmartMatching.SmartMatch.PlaceFirst | smartmatch.py:96-105 | the student is registered into the session of its first pre-placement choice among the first `top_n`, if any; only that session changes, as `add_student` says |
| SmartMatching.SmartMatch.Register | smartmatch.py:102 | `register` on session j changes only session j, as `add_student` says, and keeps the invariant |
| SmartMatching.SmartMatch.Tally | smartmatch.py:73-83 | the tally phase yields, per session, the top-N list and the count of all choices naming it |
| SmartMatching.SmartMatch.Qualify | smartmatch.py:85-94 | the selection phase yields exactly the pending students and the qualifying sessions, keyed by their own names |
| SmartMatching.SmartMatch.PlaceAll | smartmatch.py:95-105 | every pending student is placed; with sessions that start empty each roster holds, as a multiset, exactly the pending students whose destination it is, and nobody is lost |
| SmartMatching.SmartMatch.PlaceStudent | smartmatch.py:96-105 | one pass of the placement loop always places its student, and with empty starting sessions keeps `PlacedIn`: each roster holds exactly the placed students whose destination it is |
| SmartMatching.SmartMatch.Prematch | smartmatch.py:66-106 | the tallies of all choices are stored; the pool loses exactly the pending students; the unassigned are untouched; from empty sessions nobody is lost, no roster overflows, and each roster holds, as a multiset, exactly the pending students whose destination it is |
| SmartMatching.SmartMatch.Presort | smartmatch.py:72-105 | the three phases of `prematch` before the pool is updated: the tallies, the pending students, and their placement, with each roster holding exactly the pending students whose destination it is |
| BestOfRuns.NewSession | smartmatch.py:314 | a session built from an already normalised entry has that name, that capacity and an empty roster |
| BestOfRuns.NewSessions | smartmatch.py:304-315 | one new, valid, empty session per entry, under the entry's name and capacity, all distinct |
| BestOfRuns.RunOnce | smartmatch.py:360-365 | a fresh engine on the loaded input, `prematch` only for a non-zero `--presort`, then `match`: the pool is empty, everybody loaded is accounted for, only exhausted students are unassigned, and the result is their grade sum |
| BestOfRuns.FinishedLeftOver | smartmatch.py:58-59 | the unassigned of a finished run are students it loaded, each with its list run out |
| BestOfRuns.BestStep | smartmatch.py:367-369 | one more run takes over the best exactly when its score is strictly lower |
| BestOfRuns.BestOf | smartmatch.py:357-369 | with no iteration nothing is kept; otherwise the engine kept is the first run of least score, finished on its own trial's input |
| Greedy.Descending | match.py:70 | every grade exactly once, in strictly descending order |
| Greedy.Max | match.py:70 | the highest of a non-empty set of grades: in the set and no grade above it |
| Greedy.OrderDescends | match.py:70-73 | students are handled from the highest grade down: nobody comes after a student of a lower grade |
| Greedy.FirstFit | match.py:74-81 | the first choice, from a given position on, that names a session with a seat left; every earlier choice names none |
| Greedy.Place | match.py:74-83 | one student's turn leaves as many sessions as before; what it does is stated by `PlaceFails` and `PlaceSucceeds` |
| Greedy.Run | match.py:73-83 | students taken in order leave as many sessions as before; what the run does is stated by the `Run...` lemmas |
| Greedy.PlaceFails | match.py:76-83 | a student is left unplaced exactly when none of its choices names a session with a seat left, and then nothing changes |
| Greedy.PlaceSucceeds | match.py:76-81 | a placed student changes exactly one session, one that had a seat left, by being appended to it |
| Greedy.RunKeepsSeats | match.py:73-81 | seats taken plus seats left stay constant per session, a session without seats is never touched, and seats left never go negative |
| Greedy.RunPlacesEveryoneOnce | match.py:73-84 | every student handled ends in exactly one place: one roster or the unplaced list |
| Greedy.RunCounts | match.py:82-84 | unplaced ids plus new placements equal the number of students handled |
| Greedy.RunAppend | match.py:71-73 | handling one grade's list and then the rest is handling them all in order |
| Greedy.Register | match.py:78 | `register` on session j changes only session j, as `add_student` says |
| Greedy.PlaceStudent | match.py:74-81 | the choices are tried in order, skipping unknown names, and the student lands exactly where first fit says |
| Greedy.MatchStudents | match.py:73-83 | one grade's list, each student placed in list order; the ids of those placed nowhere are collected in order |
| Greedy.MatchGrades | match.py:71-83 | the grades' lists one after the other, as one run over their concatenation |
| Greedy.Match | match.py:60-84 | the sessions end as the first-fit run over the students from the highest grade down, and the ids returned are exactly those it placed nowhere |
| Greedy.OutcomesAt | match.py:99-105 | each run of the series is the run of its own trial from the same starting states: runs do not affect one another |
| Greedy.Outcomes | match.py:99-105 | one outcome per run of the series |
| Greedy.KeepStep | match.py:106-109 | the run kept changes to the new one exactly when it leaves strictly fewer students unplaced |
| Greedy.CopyAll | match.py:104 | `copy.deepcopy(sessions)`: new objects in the same states under the same names |
| Greedy.MatchCopy | match.py:104-105 | a run on a deep copy leaves the original sessions unchanged and keeps the copy, with its unplaced ids, as the run's outcome |
| Greedy.MatchNTimes | match.py:87-112 | returns the number of runs made (stopping after the first run that places everybody) and the sessions and unplaced ids of the first run with the fewest unplaced; with one iteration the sessions themselves are filled, otherwise they are left unchanged |
| Greedy.MatchCopies | match.py:99-111 | the repetition loop on deep copies, with the same result as `MatchNTimes` |

## Left out

- CSV input and output (`define_students` and `define_sessions` in both
  drivers, `results_to_file`, `write_results_to_file`) are file I/O. The model
  takes students and sessions as values. `BestOfRuns.Loaded` states what
  smartmatch.py's `define_sessions` guarantees: normalised names, each once,
  positive capacities.
- Prompts, `sys.exit`, `stats`, `printProgress`, the pretty printer,
  `argparse`, the statistics summaries and the "not enough space" check in
  match.py's `main` are console I/O and reporting.
- `Session.get_score` and `__str__` are float arithmetic and formatting.
- `float('Inf')` as the initial best becomes "no best yet" (`None`).
- `random.shuffle` becomes caller-given input. `Greedy.MatchNTimes` and
  `BestOfRuns.BestOf` take one shuffled input per run, and so require at least
  as many as runs.
- The pool of `SmartMatch` is a Python set. The model makes it a sequence:
  `pop` takes an arbitrary position, and `add` appends. The same holds for the
  set of unassigned students and for `pre_placement_students`. The loader's
  `set(...)` already merges students equal under `__eq__`.
- Students are values rather than shared objects. Every student is in one
  place at a time, so `set_order` and `incr_current_choice` on the object
  become functional updates of the student moved.
- Dictionaries keyed by session name become sequences in the dictionary's
  iteration order, with distinct names.
- `queue.PriorityQueue` internals (locking, blocking `put`, `maxsize <= 0`
  meaning unbounded) are left out; capacities are positive.
- `get_choice` with a negative index is not modelled; every caller passes
  `pref >= 0`.
- `int()` parsing inside `choice_str` and `sum_dictionary` becomes a value
  that is either an integer or a string `int()` refuses.
- The unused `all_students` parameter of `SmartSession.__init__` is dropped.
- The claim that pre-placement never changes where a student ends up
  compared with the main loop is not stated.
- BestOfRuns.BestOf: states what the kept engine finished with, but not the
  engine's roster invariant `SmartMatch.Valid`. `SmartMatch.Match` itself
  ensures that invariant.
- Students.Lower: lowers only the ASCII capitals A-Z. Python's `str.lower()`
  also lowers non-ASCII letters (such as "É" or "Σ") by the Unicode case
  tables, which are not modelled. Two names that differ only in the case of
  a non-ASCII letter therefore stay different in the model. `Students.Strip`
  removes every character `str.isspace()` accepts, the non-ASCII ones
  included.
